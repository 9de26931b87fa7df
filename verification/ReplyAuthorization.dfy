/** Whether one part of a reply may be sent now (`_current_authorization_result`). */
module ReplyAuthorization {
  import opened Wrappers
  import opened Messages
  import opened HistoryReader

  /** One part of a reply: `index` of `count`, its text and the texts before it. */
  datatype Reply = Reply(
    conversation: int, bot: int, trigger: int, index: nat, count: nat, content: string, prior: seq<string>)
  {
    function BatchHash(): Hash {
      Batch(conversation, trigger)
    }

    function ReplyHash(): Hash {
      PartHash(BatchHash(), index, count)
    }

    /** What `send_agent_bot_reply` accepts. */
    predicate Valid() {
      1 <= index <= count <= 4 && |prior| == index - 1 && forall i :: 0 <= i < |prior| ==> prior[i] != ""
    }
  }

  /** The conversation as its endpoint and its labels show it. */
  datatype Details = Details(
    inbox: int, status: string, canReply: bool, contactBlocked: Option<bool>, identityAllowed: bool,
    hasAssignee: bool, paused: bool)

  datatype Verdict =
    | Proceed
    | Blocked(reason: string)
    | Duplicate(id: int)
    | Raises(reason: string)

  const INVALID_BOT_MESSAGE := "invalid_agent_bot_message"

  /** The checks on the conversation itself. */
  function Gate(d: Details, expectedInbox: Option<int>): Verdict {
    if expectedInbox.Some? && d.inbox != expectedInbox.value then Blocked("conversation_scope_changed")
    else if expectedInbox.Some? && d.status != "open" then Blocked("conversation_not_open")
    else if expectedInbox.Some? && !d.canReply then Blocked("conversation_not_replyable")
    else if expectedInbox.Some? && d.contactBlocked != Some(false) then Blocked("contact_blocked")
    else if !d.identityAllowed then Blocked("jid_not_authorized")
    else if d.hasAssignee then Blocked("human_assignee_present")
    else if d.paused then Blocked("automation_paused")
    else Proceed
  }

  /** The position of the first message with an id. */
  function Find(messages: History, id: int): (i: Option<nat>)
    ensures i.Some? ==> i.value < |messages| && messages[i.value].id == id
    ensures i.None? <==> forall m :: m in messages ==> m.id != id
  {
    if messages == [] then None
    else if messages[0].id == id then Some(0)
    else
      var rest := Find(messages[1..], id);
      assert messages == [messages[0]] + messages[1..];
      if rest.None? then None else Some(rest.value + 1)
  }

  predicate ValidTrigger(m: Message) {
    m.isPrivate == Some(false) && m.kind == Some(INCOMING) && m.sender == Contact && m.speaks
  }

  /** Our agent bot posted it with this reply hash. */
  predicate Carries(m: Message, bot: int, hash: Hash) {
    m.sender == AgentBot(bot) && m.marks.Some? && m.marks.value.replyHash == Some(hash)
  }

  /** It is part `p` of the batch, with that text. */
  predicate IsPart(m: Message, r: Reply, p: nat, text: string) {
    && Carries(m, r.bot, PartHash(r.BatchHash(), p, r.count))
    && m.conversation == r.conversation
    && m.kind == Some(OUTGOING)
    && m.isPrivate == Some(false)
    && m.content == text
    && (r.count > 1 ==>
          && m.marks.value.batchHash == Some(r.BatchHash())
          && m.marks.value.partIndex == Some(p)
          && m.marks.value.partCount == Some(r.count))
  }

  /** The first message that already carries the reply hash decides. */
  function Repeated(messages: History, r: Reply): Verdict {
    if messages == [] then Proceed
    else if Carries(messages[0], r.bot, r.ReplyHash()) then
      if IsPart(messages[0], r, r.index, r.content) then Duplicate(messages[0].id)
      else Raises(INVALID_BOT_MESSAGE)
    else Repeated(messages[1..], r)
  }

  /** Claims to be an earlier part of this batch. */
  predicate ClaimsPrior(m: Message, r: Reply) {
    && r.count > 1
    && m.sender == AgentBot(r.bot)
    && m.marks.Some?
    && m.marks.value.batchHash == Some(r.BatchHash())
    && m.marks.value.partCount == Some(r.count)
    && m.marks.value.partIndex.Some?
    && 1 <= m.marks.value.partIndex.value < r.index
  }

  /** What one message after the trigger means for the reply: nothing, an earlier
      part, or a stop. */
  datatype Reading = Skip | Prior(index: nat) | Stop(verdict: Verdict)

  function ReadOne(m: Message, r: Reply): Reading
    requires r.Valid()
  {
    if m.isPrivate != Some(false) then Skip
    else if m.kind != Some(INCOMING) && m.kind != Some(OUTGOING) && m.kind != Some(ACTIVITY) then
      Stop(Blocked("conversation_advanced"))
    else if m.kind == Some(ACTIVITY) then Skip
    else if ClaimsPrior(m, r) then
      var p := m.marks.value.partIndex.value;
      if IsPart(m, r, p, r.prior[p - 1]) then Prior(p) else Stop(Raises(INVALID_BOT_MESSAGE))
    else if m.kind == Some(OUTGOING) && (m.sender.Contact? || m.sender.OtherSender?) then
      Stop(Blocked("human_intervention"))
    else Stop(Blocked("conversation_advanced"))
  }

  /** The first `n` indices. */
  function FirstIndices(n: nat): seq<nat> {
    seq(n, i requires 0 <= i => i + 1)
  }

  /** The pass over the messages after the trigger, with the parts found so far. */
  function Scan(tail: History, r: Reply, found: seq<nat>): Verdict
    requires r.Valid()
  {
    if tail == [] then
      if found == FirstIndices(r.index - 1) then Proceed
      else Blocked("reply_sequence_incomplete")
    else
      match ReadOne(tail[0], r)
      case Skip => Scan(tail[1..], r, found)
      case Prior(p) => Scan(tail[1..], r, found + [p])
      case Stop(v) => v
  }

  /** The decision over the messages read. */
  function Decide(messages: History, r: Reply): Verdict
    requires r.Valid()
  {
    var at := Find(messages, r.trigger);
    if at.None? then Raises("trigger_message_not_found")
    else if !ValidTrigger(messages[at.value]) then Blocked("invalid_trigger_message")
    else if Repeated(messages, r) != Proceed then Repeated(messages, r)
    else Scan(messages[at.value + 1..], r, [])
  }

  /** `_current_authorization_result`. */
  method Authorize(
      d: Details, expectedInbox: Option<int>, server: Server, r: Reply, ghost snapshots: nat -> History)
    returns (v: Verdict)
    requires r.Valid()
    ensures v == Proceed || v.Duplicate? ==>
              && d.identityAllowed && !d.hasAssignee && !d.paused
              && (expectedInbox.Some? ==>
                    d.inbox == expectedInbox.value && d.status == "open" && d.canReply && d.contactBlocked == Some(false))
    ensures expectedInbox.Some? && d.inbox != expectedInbox.value ==> v == Blocked("conversation_scope_changed")
    ensures expectedInbox == Some(d.inbox) && d.status != "open" ==> v == Blocked("conversation_not_open")
    ensures expectedInbox == Some(d.inbox) && d.status == "open" && !d.canReply ==> v == Blocked("conversation_not_replyable")
    ensures expectedInbox == Some(d.inbox) && d.status == "open" && d.canReply && d.contactBlocked != Some(false) ==>
              v == Blocked("contact_blocked")
    ensures expectedInbox.None?
            || (expectedInbox == Some(d.inbox) && d.status == "open" && d.canReply && d.contactBlocked == Some(false)) ==>
              if !d.identityAllowed then v == Blocked("jid_not_authorized")
              else if d.hasAssignee then v == Blocked("human_assignee_present")
              else if d.paused then v == Blocked("automation_paused")
              else Serves(server, snapshots) ==>
                     match Read(snapshots(0), REACH, {r.trigger}, false)
                     case Failure(_) => v.Raises?
                     case Success(messages) => v == Decide(messages, r)
  {
    v := Gate(d, expectedInbox);
    if v != Proceed {
      return;
    }
    var read := GetConversationMessages(server, REACH, {r.trigger}, false, snapshots);
    if read.Failure? {
      return Raises("messages_unavailable");
    }
    v := DecideByScanning(read.value, r);
  }

  /** The loops over the messages read. */
  method DecideByScanning(messages: History, r: Reply) returns (v: Verdict)
    requires r.Valid()
    ensures v == Decide(messages, r)
  {
    var at := Find(messages, r.trigger);
    if at.None? {
      return Raises("trigger_message_not_found");
    }
    if !ValidTrigger(messages[at.value]) {
      return Blocked("invalid_trigger_message");
    }
    for i := 0 to |messages|
      invariant Repeated(messages, r) == Repeated(messages[i..], r)
    {
      if Carries(messages[i], r.bot, r.ReplyHash()) {
        if !IsPart(messages[i], r, r.index, r.content) {
          return Raises(INVALID_BOT_MESSAGE);
        }
        return Duplicate(messages[i].id);
      }
      assert messages[i..][1..] == messages[i + 1..];
    }
    var tail := messages[at.value + 1..];
    var priorIndices: seq<nat> := [];
    for i := 0 to |tail|
      invariant Scan(tail, r, []) == Scan(tail[i..], r, priorIndices)
    {
      assert tail[i..][1..] == tail[i + 1..];
      match ReadOne(tail[i], r) {
        case Skip =>
        case Prior(p) =>
          priorIndices := priorIndices + [p];
        case Stop(stop) =>
          return stop;
      }
    }
    if priorIndices != FirstIndices(r.index - 1) {
      return Blocked("reply_sequence_incomplete");
    }
    return Proceed;
  }

  // -------------------------------------------------------------------------
  // What "proceed" means
  // -------------------------------------------------------------------------

  /** What a reader of the conversation sees: public and not an activity line. */
  predicate Relevant(m: Message) {
    m.isPrivate == Some(false) && m.kind != Some(ACTIVITY)
  }

  function Shown(h: History): History {
    if h == [] then [] else (if Relevant(h[0]) then [h[0]] else []) + Shown(h[1..])
  }

  /** Exactly the earlier parts of the reply, in order and with their texts. */
  predicate ShowsExactlyTheEarlierParts(shown: History, r: Reply)
    requires r.Valid()
  {
    ShowsTheRest(shown, r, 0)
  }

  /** Exactly the earlier parts after the first `n`. */
  predicate ShowsTheRest(shown: History, r: Reply, n: nat)
    requires r.Valid()
  {
    n + |shown| == r.index - 1 && forall i :: 0 <= i < |shown| ==> IsPart(shown[i], r, n + i + 1, r.prior[n + i])
  }

  predicate NoneCarries(h: History, r: Reply) {
    forall m :: m in h ==> !Carries(m, r.bot, r.ReplyHash())
  }

  /** The reply may go out: the trigger is a message of the contact, nobody posted
      this part yet, and what is shown after the trigger is exactly the earlier parts. */
  predicate MayGoOut(messages: History, r: Reply)
    requires r.Valid()
  {
    var at := Find(messages, r.trigger);
    && at.Some?
    && ValidTrigger(messages[at.value])
    && NoneCarries(messages, r)
    && ShowsExactlyTheEarlierParts(Shown(messages[at.value + 1..]), r)
  }

  lemma {:induction false} RepeatedMeans(messages: History, r: Reply)
    ensures Repeated(messages, r) == Proceed <==> NoneCarries(messages, r)
  {
    if messages != [] {
      RepeatedMeans(messages[1..], r);
      assert messages == [messages[0]] + messages[1..];
    }
  }

  /** A message that is shown is the earlier part it is read as, and no other. */
  lemma ReadOneMeans(m: Message, r: Reply)
    requires r.Valid()
    ensures match ReadOne(m, r)
            case Skip => !Relevant(m)
            case Prior(p) => Relevant(m) && 1 <= p < r.index && IsPart(m, r, p, r.prior[p - 1])
            case Stop(_) => Relevant(m)
    ensures forall q :: 1 <= q < r.index && Relevant(m) && IsPart(m, r, q, r.prior[q - 1]) ==> ReadOne(m, r) == Prior(q)
  {
  }

  lemma OneMoreShown(m: Message, rest: History, r: Reply, n: nat)
    requires r.Valid()
    ensures ShowsTheRest([m] + rest, r, n) <==>
              n + 1 < r.index && IsPart(m, r, n + 1, r.prior[n]) && ShowsTheRest(rest, r, n + 1)
  {
    var all := [m] + rest;
    assert forall i :: 0 <= i < |rest| ==> all[i + 1] == rest[i];
    if ShowsTheRest(all, r, n) {
      assert IsPart(all[0], r, n + 0 + 1, r.prior[n + 0]);
      forall i | 0 <= i < |rest|
        ensures IsPart(rest[i], r, n + 1 + i + 1, r.prior[n + 1 + i])
      {
        assert IsPart(all[i + 1], r, n + (i + 1) + 1, r.prior[n + (i + 1)]);
      }
    }
    if n + 1 < r.index && IsPart(m, r, n + 1, r.prior[n]) && ShowsTheRest(rest, r, n + 1) {
      forall i | 0 <= i < |all|
        ensures IsPart(all[i], r, n + i + 1, r.prior[n + i])
      {
        if i > 0 {
          assert IsPart(rest[i - 1], r, n + 1 + (i - 1) + 1, r.prior[n + 1 + (i - 1)]);
        }
      }
    }
  }

  lemma {:induction false} ScanMeans(tail: History, r: Reply, n: nat)
    requires r.Valid() && n < r.index
    ensures Scan(tail, r, FirstIndices(n)) == Proceed <==> ShowsTheRest(Shown(tail), r, n)
  {
    if tail == [] {
      assert |FirstIndices(n)| == n;
    } else {
      var m, rest := tail[0], Shown(tail[1..]);
      ReadOneMeans(m, r);
      OneMoreShown(m, rest, r, n);
      match ReadOne(m, r) {
        case Skip =>
          assert [] + rest == rest;
          ScanMeans(tail[1..], r, n);
        case Stop(_) =>
        case Prior(p) =>
          if p == n + 1 {
            assert FirstIndices(n) + [p] == FirstIndices(n + 1);
            ScanMeans(tail[1..], r, n + 1);
          } else {
            FoundStaysWrong(tail[1..], r, FirstIndices(n) + [p], n);
          }
      }
    }
  }

  /** A part found out of its place is never repaired. */
  lemma {:induction false} FoundStaysWrong(tail: History, r: Reply, found: seq<nat>, at: nat)
    requires r.Valid() && at < |found| && found[at] != at + 1
    ensures Scan(tail, r, found) != Proceed
  {
    if tail != [] {
      match ReadOne(tail[0], r) {
        case Skip => FoundStaysWrong(tail[1..], r, found, at);
        case Prior(p) => FoundStaysWrong(tail[1..], r, found + [p], at);
        case Stop(_) =>
      }
    } else if at < r.index - 1 {
      assert FirstIndices(r.index - 1)[at] == at + 1;
    }
  }

  /** The decision is to proceed exactly when the reply may go out. */
  lemma ProceedMeansMayGoOut(messages: History, r: Reply)
    requires r.Valid()
    ensures Decide(messages, r) == Proceed <==> MayGoOut(messages, r)
  {
    RepeatedMeans(messages, r);
    var at := Find(messages, r.trigger);
    if at.Some? {
      assert FirstIndices(0) == [];
      ScanMeans(messages[at.value + 1..], r, 0);
    }
  }

  /** The reply's read misses nothing since the trigger: it is the end of the history,
      and it fails only when the trigger is too far back. */
  lemma ReadForReply(h: History, trigger: int)
    requires Increasing(h)
    ensures match Read(h, REACH, {trigger}, false)
            case Failure(_) => |h| >= REACH && trigger !in Ids(Last(h, REACH))
            case Success(messages) =>
              messages == Last(h, REACH) && (trigger in Ids(h) ==> trigger in Ids(messages))
  {
    if StopsEarly(h, REACH, {trigger}) {
      SelectOfTail(h, REACH, REACH, {trigger});
    }
  }
}
