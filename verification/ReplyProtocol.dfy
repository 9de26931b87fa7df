/** The delivery of replies by several workers (`send_agent_bot_reply`,
    `_authorize_and_send`, `_claim_reply_delivery`) as steps over shared state: the
    lock and journal files of the reply directory, the conversation's history on the
    server and the POSTs on their way to it. Any worker may stop or die at any step,
    and a POST may land at any later moment or never. */
module ReplyProtocol {
  import opened Wrappers
  import opened Messages
  import opened HistoryReader
  import opened ReplyAuthorization
  import opened ReplyDecision

  // -------------------------------------------------------------------------
  // The reply directory
  // -------------------------------------------------------------------------

  /** The journals after a claim and whether the claim was won. */
  function ClaimOutcome(journals: set<Hash>, batch: Hash, reply: Hash, count: nat): (bool, set<Hash>) {
    if count > 1 && batch in journals then (false, journals)
    else if reply in journals then (false, journals)
    else (true, journals + {reply})
  }

  /** The `.<hash>.posting` files of the reply directory. */
  class ReplyDirectory {
    var journals: set<Hash>

    constructor ()
      ensures journals == {}
    {
      journals := {};
    }

    /** `_claim_reply_delivery`: the exclusive creation of the journal. */
    method ClaimReplyDelivery(batch: Hash, reply: Hash, count: nat) returns (claimed: bool)
      modifies this
      ensures (claimed, journals) == ClaimOutcome(old(journals), batch, reply, count)
      ensures claimed ==> reply !in old(journals) && reply in journals
      ensures claimed && count > 1 ==> batch !in old(journals)
    {
      if count > 1 {
        if batch in journals {
          return false;
        }
      }
      if reply in journals {
        return false;
      }
      journals := journals + {reply};
      return true;
    }
  }

  /** However many claims are made, the same reply hash is won at most once. */
  lemma AClaimIsWonOnce(journals: set<Hash>, batch: Hash, reply: Hash, count: nat, later: set<Hash>)
    requires ClaimOutcome(journals, batch, reply, count).0
    requires ClaimOutcome(journals, batch, reply, count).1 <= later
    ensures forall b, n :: !ClaimOutcome(later, b, reply, n).0
  {
  }

  // -------------------------------------------------------------------------
  // The world and its steps
  // -------------------------------------------------------------------------

  /** Where a worker is. `Waiting` is before the lock; `Done` still holds it. */
  datatype Pc =
    | Waiting | FirstRead | SecondRead | Authorizer | ThirdRead
    | LegacyCheck | CreateJournal | Post | Done

  datatype Worker = Worker(reply: Reply, asksFirst: bool, pc: Pc, lastRead: History)

  /** A POST and the history its worker had read last. */
  datatype Issue = Issue(reply: Reply, lastRead: History)

  datatype World = World(
    conversation: int,
    bot: int,
    history: History,
    journals: set<Hash>,
    locks: map<Hash, nat>,
    workers: map<nat, Worker>,
    inFlight: set<Reply>,
    issued: seq<Issue>)

  datatype Step =
    | Start(id: nat, reply: Reply, asksFirst: bool)
    | TakeLock(id: nat)
    | Look(id: nat)
    | Allow(id: nat)
    | GiveUp(id: nat)
    | CheckLegacy(id: nat)
    | MakeJournal(id: nat)
    | IssuePost(id: nat)
    | Leave(id: nat)
    | Land(reply: Reply, messageId: int, createdAt: int)
    | Lose(reply: Reply)
    | Others(message: Message)

  /** Posted by our bot with a reply hash. */
  predicate Ours(m: Message, bot: int) {
    m.sender == AgentBot(bot) && m.marks.Some? && m.marks.value.replyHash.Some?
  }

  /** The message a POST creates. */
  function Posted(r: Reply, messageId: int, createdAt: int): Message {
    Message(messageId, r.conversation, Some(createdAt), Some(false), Some(OUTGOING), AgentBot(r.bot), r.content, true,
            Some(if r.count > 1 then
                   Marks(Some(r.ReplyHash()), Some(r.BatchHash()), Some(r.index), Some(r.count))
                 else Marks(Some(r.ReplyHash()), None, None, None)))
  }

  predicate NewId(h: History, id: int) {
    h == [] || h[|h| - 1].id < id
  }

  /** A read of the history lets the reply proceed. */
  predicate Cleared(h: History, r: Reply)
    requires r.Valid()
  {
    match Read(h, REACH, {r.trigger}, false)
    case Failure(_) => false
    case Success(messages) => Decide(messages, r) == Proceed
  }

  function Move(w: World, id: nat, pc: Pc): World
    requires id in w.workers
  {
    w.(workers := w.workers[id := w.workers[id].(pc := pc)])
  }

  /** The worker is gone; the operating system releases its lock. */
  function Gone(w: World, id: nat): World
    requires id in w.workers
  {
    var batch := w.workers[id].reply.BatchHash();
    w.(workers := w.workers - {id},
       locks := if batch in w.locks && w.locks[batch] == id then w.locks - {batch} else w.locks)
  }

  /** Where a worker goes after a read that lets it proceed. */
  function AfterRead(worker: Worker): Pc {
    match worker.pc
    case FirstRead => SecondRead
    case SecondRead => if worker.asksFirst then Authorizer else LegacyCheck
    case _ => LegacyCheck
  }

  predicate Reading(pc: Pc) {
    pc.FirstRead? || pc.SecondRead? || pc.ThirdRead?
  }

  /** One step, when it can be taken. */
  function Apply(w: World, step: Step): Option<World> {
    match step
    case Start(id, reply, asksFirst) =>
      if id !in w.workers && reply.Valid() && reply.conversation == w.conversation && reply.bot == w.bot then
        Some(w.(workers := w.workers[id := Worker(reply, asksFirst, Waiting, [])]))
      else None
    case TakeLock(id) =>
      if id in w.workers && w.workers[id].pc == Waiting && w.workers[id].reply.BatchHash() !in w.locks then
        Some(Move(w, id, FirstRead).(locks := w.locks[w.workers[id].reply.BatchHash() := id]))
      else None
    case Look(id) =>
      if id in w.workers && Reading(w.workers[id].pc) && w.workers[id].reply.Valid() then
        var worker := w.workers[id];
        if Cleared(w.history, worker.reply) then
          Some(w.(workers := w.workers[id := worker.(pc := AfterRead(worker), lastRead := w.history)]))
        else Some(Move(w, id, Done))
      else None
    case Allow(id) =>
      if id in w.workers && w.workers[id].pc == Authorizer then Some(Move(w, id, ThirdRead)) else None
    case GiveUp(id) =>
      // blocked by the conversation, refused by the authorizer, a failed request
      if id in w.workers && w.workers[id].pc != Waiting then Some(Move(w, id, Done)) else None
    case CheckLegacy(id) =>
      if id in w.workers && w.workers[id].pc == LegacyCheck then
        var r := w.workers[id].reply;
        Some(Move(w, id, if r.count > 1 && r.BatchHash() in w.journals then Done else CreateJournal))
      else None
    case MakeJournal(id) =>
      if id in w.workers && w.workers[id].pc == CreateJournal then
        var hash := w.workers[id].reply.ReplyHash();
        if hash in w.journals then Some(Move(w, id, Done))
        else Some(Move(w, id, Post).(journals := w.journals + {hash}))
      else None
    case IssuePost(id) =>
      if id in w.workers && w.workers[id].pc == Post then
        var worker := w.workers[id];
        Some(Move(w, id, Done).(inFlight := w.inFlight + {worker.reply},
                                issued := w.issued + [Issue(worker.reply, worker.lastRead)]))
      else None
    case Leave(id) =>
      // a normal end or a crash, at any point
      if id in w.workers then Some(Gone(w, id)) else None
    case Land(reply, messageId, createdAt) =>
      if reply in w.inFlight && NewId(w.history, messageId) then
        Some(w.(history := w.history + [Posted(reply, messageId, createdAt)], inFlight := w.inFlight - {reply}))
      else None
    case Lose(reply) =>
      if reply in w.inFlight then Some(w.(inFlight := w.inFlight - {reply})) else None
    case Others(m) =>
      if NewId(w.history, m.id) && !Ours(m, w.bot) then Some(w.(history := w.history + [m])) else None
  }

  /** The two steps of the claim, taken one after the other, are the claim. */
  lemma ClaimIsTwoSteps(w: World, id: nat)
    requires id in w.workers && w.workers[id].pc == LegacyCheck
    ensures var r := w.workers[id].reply;
            var (won, journals) := ClaimOutcome(w.journals, r.BatchHash(), r.ReplyHash(), r.count);
            var checked := Apply(w, CheckLegacy(id)).value;
            var claimed := if checked.workers[id].pc == Done then checked else Apply(checked, MakeJournal(id)).value;
            claimed.journals == journals && claimed.workers[id].pc == (if won then Post else Done)
  {
  }

  function Run(w: World, steps: seq<Step>): Option<World>
    decreases |steps|
  {
    if steps == [] then Some(w)
    else
      match Apply(w, steps[0])
      case None => None
      case Some(next) => Run(next, steps[1..])
  }

  /** Before any worker runs: the journals may hold anything from earlier lives. */
  ghost predicate Initial(w: World) {
    && Increasing(w.history)
    && (forall m :: m in w.history ==> !Ours(m, w.bot))
    && w.locks == map[] && w.workers == map[] && w.inFlight == {} && w.issued == []
  }

  // -------------------------------------------------------------------------
  // The invariant
  // -------------------------------------------------------------------------

  ghost predicate InScope(w: World, r: Reply) {
    r.Valid() && r.conversation == w.conversation && r.bot == w.bot
  }

  ghost predicate Scoped(w: World) {
    && (forall id :: id in w.workers ==> InScope(w, w.workers[id].reply))
    && (forall i :: 0 <= i < |w.issued| ==> InScope(w, w.issued[i].reply))
  }

  /** Past `Waiting`, a worker owns the lock of its batch. */
  ghost predicate Locked(w: World) {
    forall id :: id in w.workers && w.workers[id].pc != Waiting ==>
      var batch := w.workers[id].reply.BatchHash();
      batch in w.locks && w.locks[batch] == id
  }

  /** Past the legacy check, no whole reply of the batch has been claimed. */
  ghost predicate NoWholeReply(w: World) {
    forall id :: id in w.workers && w.workers[id].pc in {CreateJournal, Post} && w.workers[id].reply.count > 1 ==>
      w.workers[id].reply.BatchHash() !in w.journals
  }

  ghost predicate Journaled(w: World) {
    && (forall id :: id in w.workers && w.workers[id].pc == Post ==> w.workers[id].reply.ReplyHash() in w.journals)
    && (forall i :: 0 <= i < |w.issued| ==> w.issued[i].reply.ReplyHash() in w.journals)
  }

  ghost predicate Unissued(w: World) {
    forall id, i :: id in w.workers && w.workers[id].pc == Post && 0 <= i < |w.issued| ==>
      w.issued[i].reply.ReplyHash() != w.workers[id].reply.ReplyHash()
  }

  /** At most one POST per reply hash. */
  ghost predicate OncePerHash(w: World) {
    forall i, j :: 0 <= i < j < |w.issued| ==> w.issued[i].reply.ReplyHash() != w.issued[j].reply.ReplyHash()
  }

  ghost predicate ReadBefore(w: World, lastRead: History, r: Reply) {
    lastRead <= w.history && r.Valid() && Cleared(lastRead, r)
  }

  /** Who is about to post, and who has posted, was let proceed by its last read. */
  ghost predicate ClearedFirst(w: World) {
    && (forall id :: id in w.workers && w.workers[id].pc in {LegacyCheck, CreateJournal, Post} ==>
          ReadBefore(w, w.workers[id].lastRead, w.workers[id].reply))
    && (forall i :: 0 <= i < |w.issued| ==> ReadBefore(w, w.issued[i].lastRead, w.issued[i].reply))
  }

  ghost predicate WasIssued(w: World, r: Reply) {
    exists i :: 0 <= i < |w.issued| && w.issued[i].reply == r
  }

  /** Our messages on the server come from POSTs that are no longer in flight, each
      from its own. */
  ghost predicate Delivered(w: World) {
    && (forall r :: r in w.inFlight ==> WasIssued(w, r))
    && (forall m :: m in w.history && Ours(m, w.bot) ==> FromPost(w, m))
    && (forall i, j :: 0 <= i < j < |w.history| && Ours(w.history[i], w.bot) && Ours(w.history[j], w.bot) ==>
          w.history[i].marks.value.replyHash != w.history[j].marks.value.replyHash)
  }

  ghost predicate FromPost(w: World, m: Message) {
    m.createdAt.Some? &&
    exists i :: 0 <= i < |w.issued| && m == Posted(w.issued[i].reply, m.id, m.createdAt.value)
                && w.issued[i].reply !in w.inFlight
  }

  ghost predicate Inv(w: World) {
    && Increasing(w.history)
    && Scoped(w) && Locked(w) && NoWholeReply(w) && Journaled(w) && Unissued(w) && OncePerHash(w)
    && ClearedFirst(w) && Delivered(w)
  }

  lemma InitialInv(w: World)
    requires Initial(w)
    ensures Inv(w)
  {
  }

  /** Hashes tell batches apart. */
  lemma SameHashSameBatch(a: Reply, b: Reply)
    requires a.ReplyHash() == b.ReplyHash()
    ensures a.BatchHash() == b.BatchHash() && (a.count == 1 <==> b.count == 1)
    ensures a.count > 1 ==> a.index == b.index && a.count == b.count
  {
  }

  lemma StepGrows(w: World, step: Step, next: World)
    requires Apply(w, step) == Some(next)
    ensures w.history <= next.history && w.journals <= next.journals && w.issued <= next.issued
    ensures next.conversation == w.conversation && next.bot == w.bot
  {
  }

  lemma KeepsIdOrder(w: World, step: Step, next: World)
    requires Increasing(w.history) && Apply(w, step) == Some(next)
    ensures Increasing(next.history)
  {
    if step.Land? || step.Others? {
      assert next.history[..|w.history|] == w.history;
    }
  }

  lemma KeepsScope(w: World, step: Step, next: World)
    requires Scoped(w) && Apply(w, step) == Some(next)
    ensures Scoped(next)
  {
    StepGrows(w, step, next);
    forall id | id in next.workers
      ensures InScope(next, next.workers[id].reply)
    {
      assert id in w.workers ==> next.workers[id].reply == w.workers[id].reply;
    }
  }

  lemma KeepsLocked(w: World, step: Step, next: World)
    requires Locked(w) && Apply(w, step) == Some(next)
    ensures Locked(next)
  {
    forall id | id in next.workers && next.workers[id].pc != Waiting
      ensures next.workers[id].reply.BatchHash() in next.locks
      ensures next.locks[next.workers[id].reply.BatchHash()] == id
    {
      assert id in w.workers && next.workers[id].reply == w.workers[id].reply;
    }
  }

  /** A worker past the legacy check was at it, or past it, before. */
  lemma PastTheCheck(w: World, step: Step, next: World, id: nat)
    requires Apply(w, step) == Some(next) && id in next.workers && next.workers[id].pc in {CreateJournal, Post}
    ensures id in w.workers && next.workers[id].reply == w.workers[id].reply
    ensures w.workers[id].pc in {LegacyCheck, CreateJournal, Post}
    ensures w.workers[id].pc == LegacyCheck && w.workers[id].reply.count > 1 ==>
              w.workers[id].reply.BatchHash() !in w.journals && next.journals == w.journals
  {
  }

  lemma KeepsNoWholeReply(w: World, step: Step, next: World)
    requires NoWholeReply(w) && Locked(w) && Apply(w, step) == Some(next)
    ensures NoWholeReply(next)
  {
    forall id | id in next.workers && next.workers[id].pc in {CreateJournal, Post} && next.workers[id].reply.count > 1
      ensures next.workers[id].reply.BatchHash() !in next.journals
    {
      PastTheCheck(w, step, next, id);
    }
  }

  lemma KeepsJournals(w: World, step: Step, next: World)
    requires Journaled(w) && Apply(w, step) == Some(next)
    ensures Journaled(next)
  {
    StepGrows(w, step, next);
    forall id | id in next.workers && next.workers[id].pc == Post
      ensures next.workers[id].reply.ReplyHash() in next.journals
    {
      assert id in w.workers && next.workers[id].reply == w.workers[id].reply;
    }
  }

  lemma KeepsOncePerHash(w: World, step: Step, next: World)
    requires Unissued(w) && OncePerHash(w) && Journaled(w) && Locked(w) && Apply(w, step) == Some(next)
    ensures Unissued(next) && OncePerHash(next)
  {
    forall id, i | id in next.workers && next.workers[id].pc == Post && 0 <= i < |next.issued|
      ensures next.issued[i].reply.ReplyHash() != next.workers[id].reply.ReplyHash()
    {
      assert id in w.workers && next.workers[id].reply == w.workers[id].reply;
      if i == |w.issued| {
        if next.workers[id].reply.ReplyHash() == w.workers[step.id].reply.ReplyHash() {
          SameHashSameBatch(next.workers[id].reply, w.workers[step.id].reply);
        }
      } else {
        assert next.issued[i] == w.issued[i];
      }
    }
  }

  /** A worker past its reads has just read, or was past them already. */
  lemma PastItsReads(w: World, step: Step, next: World, id: nat)
    requires Apply(w, step) == Some(next)
    requires id in next.workers && next.workers[id].pc in {LegacyCheck, CreateJournal, Post}
    ensures var now := next.workers[id];
            || (w.history == next.history == now.lastRead && now.reply.Valid() && Cleared(now.lastRead, now.reply))
            || (id in w.workers && w.workers[id].pc in {LegacyCheck, CreateJournal, Post}
                && w.workers[id].lastRead == now.lastRead && w.workers[id].reply == now.reply)
  {
  }

  lemma WorkersStayCleared(w: World, step: Step, next: World, id: nat)
    requires ClearedFirst(w) && Apply(w, step) == Some(next)
    requires id in next.workers && next.workers[id].pc in {LegacyCheck, CreateJournal, Post}
    ensures ReadBefore(next, next.workers[id].lastRead, next.workers[id].reply)
  {
    StepGrows(w, step, next);
    PastItsReads(w, step, next, id);
  }

  lemma IssuesStayCleared(w: World, step: Step, next: World, i: nat)
    requires ClearedFirst(w) && Apply(w, step) == Some(next) && i < |next.issued|
    ensures ReadBefore(next, next.issued[i].lastRead, next.issued[i].reply)
  {
    StepGrows(w, step, next);
    if i < |w.issued| {
      assert next.issued[i] == w.issued[i];
      assert ReadBefore(w, w.issued[i].lastRead, w.issued[i].reply);
    } else {
      assert ReadBefore(w, w.workers[step.id].lastRead, w.workers[step.id].reply);
    }
  }

  lemma KeepsClearedFirst(w: World, step: Step, next: World)
    requires ClearedFirst(w) && Apply(w, step) == Some(next)
    ensures ClearedFirst(next)
  {
    forall id | id in next.workers && next.workers[id].pc in {LegacyCheck, CreateJournal, Post}
      ensures ReadBefore(next, next.workers[id].lastRead, next.workers[id].reply)
    {
      WorkersStayCleared(w, step, next, id);
    }
    forall i | 0 <= i < |next.issued|
      ensures ReadBefore(next, next.issued[i].lastRead, next.issued[i].reply)
    {
      IssuesStayCleared(w, step, next, i);
    }
  }

  /** A POST that is issued is a new one. */
  lemma IssueKeepsDelivered(w: World, step: Step, next: World)
    requires Delivered(w) && Unissued(w) && step.IssuePost? && Apply(w, step) == Some(next)
    ensures Delivered(next)
  {
    var mine := w.workers[step.id].reply;
    assert next.issued[|w.issued|].reply == mine;
    forall r | r in next.inFlight
      ensures WasIssued(next, r)
    {
      if r != mine {
        var i :| 0 <= i < |w.issued| && w.issued[i].reply == r;
        assert next.issued[i].reply == r;
      }
    }
    forall m | m in next.history && Ours(m, next.bot)
      ensures FromPost(next, m)
    {
      assert FromPost(w, m);
      var i :| 0 <= i < |w.issued| && m == Posted(w.issued[i].reply, m.id, m.createdAt.value)
               && w.issued[i].reply !in w.inFlight;
      assert next.issued[i] == w.issued[i];
      assert w.issued[i].reply.ReplyHash() != mine.ReplyHash();
    }
  }

  /** A message of ours that is already there does not come from a POST in flight. */
  lemma InFlightIsNotThere(w: World, r: Reply, m: Message)
    requires Delivered(w) && OncePerHash(w)
    requires r in w.inFlight && m in w.history && Ours(m, w.bot)
    ensures m.marks.value.replyHash != Some(r.ReplyHash())
  {
    assert WasIssued(w, r) && FromPost(w, m);
  }

  lemma LandKeepsDelivered(w: World, step: Step, next: World)
    requires Delivered(w) && OncePerHash(w) && step.Land? && Apply(w, step) == Some(next)
    ensures Delivered(next)
  {
    var r := step.reply;
    var posted := Posted(r, step.messageId, step.createdAt);
    assert WasIssued(w, r);
    forall q | q in next.inFlight
      ensures WasIssued(next, q)
    {
      assert WasIssued(w, q);
    }
    forall m | m in next.history && Ours(m, next.bot)
      ensures FromPost(next, m)
    {
      if m in w.history {
        assert FromPost(w, m);
      }
    }
    forall i, j | 0 <= i < j < |next.history| && Ours(next.history[i], next.bot) && Ours(next.history[j], next.bot)
      ensures next.history[i].marks.value.replyHash != next.history[j].marks.value.replyHash
    {
      if j == |w.history| {
        assert next.history[i] == w.history[i];
        InFlightIsNotThere(w, r, w.history[i]);
      } else {
        assert next.history[i] == w.history[i] && next.history[j] == w.history[j];
      }
    }
  }

  lemma OtherStepsKeepDelivered(w: World, step: Step, next: World)
    requires Delivered(w) && !step.Land? && !step.IssuePost? && Apply(w, step) == Some(next)
    ensures Delivered(next)
  {
    StepGrows(w, step, next);
    assert next.issued == w.issued && next.inFlight <= w.inFlight;
    forall r | r in next.inFlight
      ensures WasIssued(next, r)
    {
      assert WasIssued(w, r);
    }
    forall m | m in next.history && Ours(m, next.bot)
      ensures FromPost(next, m)
    {
      assert m in w.history;
      assert FromPost(w, m);
    }
    forall i, j | 0 <= i < j < |next.history| && Ours(next.history[i], next.bot) && Ours(next.history[j], next.bot)
      ensures next.history[i].marks.value.replyHash != next.history[j].marks.value.replyHash
    {
      assert next.history[i] == w.history[i] && next.history[j] == w.history[j];
    }
  }

  lemma StepKeepsInv(w: World, step: Step, next: World)
    requires Inv(w) && Apply(w, step) == Some(next)
    ensures Inv(next)
  {
    KeepsIdOrder(w, step, next);
    KeepsScope(w, step, next);
    KeepsLocked(w, step, next);
    KeepsNoWholeReply(w, step, next);
    KeepsJournals(w, step, next);
    KeepsOncePerHash(w, step, next);
    KeepsClearedFirst(w, step, next);
    if step.Land? {
      LandKeepsDelivered(w, step, next);
    } else if step.IssuePost? {
      IssueKeepsDelivered(w, step, next);
    } else {
      OtherStepsKeepDelivered(w, step, next);
    }
  }

  /** Every run keeps the invariant, and what is on record stays on record. */
  lemma {:induction false} RunKeepsInv(w: World, steps: seq<Step>, last: World)
    requires Inv(w) && Run(w, steps) == Some(last)
    ensures Inv(last)
    ensures w.history <= last.history && w.journals <= last.journals && w.issued <= last.issued
    ensures last.conversation == w.conversation && last.bot == w.bot
    decreases |steps|
  {
    if steps != [] {
      var next := Apply(w, steps[0]).value;
      StepKeepsInv(w, steps[0], next);
      StepGrows(w, steps[0], next);
      RunKeepsInv(next, steps[1..], last);
    }
  }

  // -------------------------------------------------------------------------
  // At most one POST
  // -------------------------------------------------------------------------

  /** In every run, whatever the workers are given and wherever they stop, no reply
      hash is posted twice, and none that already had its journal is posted. */
  lemma {:induction false} AtMostOnePostPerHash(w: World, steps: seq<Step>, last: World)
    requires Initial(w) && Run(w, steps) == Some(last)
    ensures forall i, j :: 0 <= i < j < |last.issued| ==>
              last.issued[i].reply.ReplyHash() != last.issued[j].reply.ReplyHash()
    ensures forall i :: 0 <= i < |last.issued| ==> last.issued[i].reply.ReplyHash() !in w.journals
  {
    InitialInv(w);
    RunKeepsInv(w, steps, last);
    JournaledIsNotPosted(w, steps, last, w.journals);
  }

  /** Nobody about to post, and nothing posted since, holds a journal of `given`. */
  ghost predicate AvoidsJournals(w: World, given: set<Hash>) {
    && given <= w.journals
    && (forall id :: id in w.workers && w.workers[id].pc == Post ==> w.workers[id].reply.ReplyHash() !in given)
    && (forall i :: 0 <= i < |w.issued| ==> w.issued[i].reply.ReplyHash() !in given)
  }

  lemma StepAvoidsJournals(w: World, step: Step, next: World, given: set<Hash>)
    requires AvoidsJournals(w, given) && Apply(w, step) == Some(next)
    ensures AvoidsJournals(next, given)
  {
    StepGrows(w, step, next);
    forall id | id in next.workers && next.workers[id].pc == Post
      ensures next.workers[id].reply.ReplyHash() !in given
    {
      assert id in w.workers && next.workers[id].reply == w.workers[id].reply;
    }
  }

  lemma {:induction false} JournaledIsNotPosted(w: World, steps: seq<Step>, last: World, given: set<Hash>)
    requires AvoidsJournals(w, given) && Run(w, steps) == Some(last)
    ensures AvoidsJournals(last, given)
    decreases |steps|
  {
    if steps != [] {
      var next := Apply(w, steps[0]).value;
      StepAvoidsJournals(w, steps[0], next, given);
      JournaledIsNotPosted(next, steps[1..], last, given);
    }
  }

  /** Once a journal named by the batch hash exists, no part of a reply of several
      parts is posted for that batch. Here the lock matters: the check and the
      creation of the journal are two steps. */
  lemma {:induction false} NoPartAfterWholeReply(w: World, steps: seq<Step>, last: World, batch: Hash)
    requires Inv(w) && batch in w.journals && Run(w, steps) == Some(last)
    ensures w.issued <= last.issued
    ensures forall i :: |w.issued| <= i < |last.issued| && last.issued[i].reply.BatchHash() == batch ==>
              last.issued[i].reply.count == 1
    decreases |steps|
  {
    if steps != [] {
      var next := Apply(w, steps[0]).value;
      StepKeepsInv(w, steps[0], next);
      StepGrows(w, steps[0], next);
      NoPartAfterWholeReply(next, steps[1..], last, batch);
      NextIssueIsWhole(w, steps[0], next, batch);
      forall i | |w.issued| <= i < |last.issued| && last.issued[i].reply.BatchHash() == batch
        ensures last.issued[i].reply.count == 1
      {
        if i < |next.issued| {
          assert last.issued[i] == next.issued[i];
        }
      }
    }
  }

  lemma NextIssueIsWhole(w: World, step: Step, next: World, batch: Hash)
    requires Scoped(w) && NoWholeReply(w) && batch in w.journals && Apply(w, step) == Some(next)
    ensures forall i :: |w.issued| <= i < |next.issued| && next.issued[i].reply.BatchHash() == batch ==>
              next.issued[i].reply.count == 1
  {
    if step.IssuePost? {
      assert InScope(w, w.workers[step.id].reply);
    }
  }

  // -------------------------------------------------------------------------
  // What the last read showed
  // -------------------------------------------------------------------------

  /** Every POST was preceded by a read of the history that showed the contact's message
      and, after it, exactly the earlier parts, and nothing else that is public. */
  lemma EveryPostWasCleared(w: World, steps: seq<Step>, last: World, i: nat) returns (at: nat, ps: seq<nat>)
    requires Initial(w) && Run(w, steps) == Some(last) && i < |last.issued|
    ensures var Issue(reply, lastRead) := last.issued[i];
            && reply.Valid() && lastRead <= last.history
            && TriggerIsAt(Last(lastRead, REACH), reply, at) && NotPosted(Last(lastRead, REACH), reply)
            && EarlierPartsAreAt(Last(lastRead, REACH)[at + 1..], reply, ps)
  {
    InitialInv(w);
    RunKeepsInv(w, steps, last);
    var Issue(reply, lastRead) := last.issued[i];
    assert ReadBefore(last, lastRead, reply);
    ClearedMeans(last.history, lastRead, reply);
    ProceedMeansMayGoOut(Last(lastRead, REACH), reply);
    at, ps := ProceedSaysWhatIsThere(Last(lastRead, REACH), reply);
  }

  lemma ClearedMeans(h: History, lastRead: History, r: Reply)
    requires Increasing(h) && lastRead <= h && r.Valid() && Cleared(lastRead, r)
    ensures MayGoOut(Last(lastRead, REACH), r)
  {
    assert Increasing(lastRead) by {
      forall i, j | 0 <= i < j < |lastRead|
        ensures lastRead[i].id < lastRead[j].id
      {
        assert lastRead[i] == h[i] && lastRead[j] == h[j];
      }
    }
    ReadForReply(lastRead, r.trigger);
    ProceedMeansMayGoOut(Last(lastRead, REACH), r);
  }
}
