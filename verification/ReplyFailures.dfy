/** What the others may do while a worker is at work: any worker may die, a POST may be lost
    or late, and the person may write. */
module ReplyFailures {
  import opened Wrappers
  import opened Messages
  import opened HistoryReader
  import opened ReplyAuthorization
  import opened ReplyDecision
  import opened ReplyProtocol

  /** A worker may stop or die wherever it is: the next one can take the lock, and what it
      has claimed or issued stays. */
  lemma AWorkerMayDie(w: World, id: nat)
    requires Locked(w) && id in w.workers && w.workers[id].pc != Waiting
    ensures Apply(w, GiveUp(id)).Some?
    ensures Apply(w, Leave(id)).Some?
    ensures var next := Apply(w, Leave(id)).value;
            && next == w.(workers := w.workers - {id}, locks := w.locks - {w.workers[id].reply.BatchHash()})
            && w.workers[id].reply.BatchHash() !in next.locks
  {
  }

  /** A POST may be lost, or arrive at any later time, whatever became of its worker. */
  lemma APostMayBeLostOrLate(w: World, r: Reply, messageId: int, createdAt: int)
    requires r in w.inFlight && NewId(w.history, messageId)
    ensures Apply(w, Lose(r)) == Some(w.(inFlight := w.inFlight - {r}))
    ensures Apply(w, Land(r, messageId, createdAt)).Some?
    ensures var next := Apply(w, Land(r, messageId, createdAt)).value;
            && next.inFlight == w.inFlight - {r} && |next.history| == |w.history| + 1
            && next.history[..|w.history|] == w.history && next.history[|w.history|].id == messageId
  {
  }

  /** The person may write at any time, and from then on no look lets a reply to an earlier
      message proceed. */
  lemma AWordOfThePersonStopsTheRest(w: World, m: Message, id: nat)
    requires Increasing(w.history) && NewId(w.history, m.id)
    requires m.sender == Contact && m.isPrivate == Some(false) && m.kind == Some(INCOMING)
    requires id in w.workers && w.workers[id].pc in {FirstRead, SecondRead, ThirdRead} && w.workers[id].reply.Valid()
    requires w.workers[id].reply.trigger != m.id
    ensures Apply(w, Others(m)) == Some(w.(history := w.history + [m]))
    ensures var after := w.(history := w.history + [m]);
            && Apply(after, Look(id)).Some? && Apply(after, Look(id)).value.workers[id].pc == Done
  {
    ItIsNotCleared(w.history, m, w.workers[id].reply);
  }

  lemma ItIsNotCleared(h: History, m: Message, r: Reply)
    requires Increasing(h) && NewId(h, m.id) && r.Valid() && r.trigger != m.id
    requires m.sender == Contact && m.isPrivate == Some(false) && m.kind == Some(INCOMING)
    ensures !Cleared(h + [m], r)
  {
    var now := h + [m];
    OneMoreIncreases(h, m);
    ReadForReply(now, r.trigger);
    LastKeepsTheLast(h, m);
    ALaterMessageStops(Last(now, REACH), r);
  }

  lemma LastKeepsTheLast(h: History, m: Message)
    ensures var last := Last(h + [m], REACH); last != [] && last[|last| - 1] == m
  {
  }

  lemma OneMoreIncreases(h: History, m: Message)
    requires Increasing(h) && NewId(h, m.id)
    ensures Increasing(h + [m])
  {
    forall i, j | 0 <= i < j < |h + [m]|
      ensures (h + [m])[i].id < (h + [m])[j].id
    {
      assert i < |h| - 1 ==> h[i].id < h[|h| - 1].id;
    }
  }
}
