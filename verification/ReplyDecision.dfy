/** What the decision on a reply says, in terms of the messages alone. */
module ReplyDecision {
  import opened Wrappers
  import opened Messages
  import opened HistoryReader
  import opened Positions
  import opened ReplyAuthorization

  /** The trigger is at `at`: the first message with its id, public, from the contact,
      with something in it. */
  ghost predicate TriggerIsAt(messages: History, r: Reply, at: nat) {
    && at < |messages| && messages[at].id == r.trigger && (forall i :: 0 <= i < at ==> messages[i].id != r.trigger)
    && messages[at].isPrivate == Some(false) && messages[at].kind == Some(INCOMING)
    && messages[at].sender == Contact && messages[at].speaks
  }

  /** Our agent bot posted `text` in the conversation, in public, as part `p` of the reply. */
  ghost predicate IsOurPart(m: Message, r: Reply, p: nat, text: string) {
    && m.sender == AgentBot(r.bot) && m.conversation == r.conversation
    && m.kind == Some(OUTGOING) && m.isPrivate == Some(false) && m.content == text && m.marks.Some?
    && if r.count == 1 then m.marks.value.replyHash == Some(Batch(r.conversation, r.trigger))
       else m.marks.value == Marks(Some(Part(Batch(r.conversation, r.trigger), p, r.count)),
                                   Some(Batch(r.conversation, r.trigger)), Some(p), Some(r.count))
  }

  /** A reader sees it: it is public, and not an activity line. */
  predicate IsSeen(m: Message) {
    m.isPrivate == Some(false) && m.kind != Some(ACTIVITY)
  }

  /** What a reader sees of the messages after the trigger is at `ps`: one for each
      earlier part, in order, with its text. */
  ghost predicate EarlierPartsAreAt(after: History, r: Reply, ps: seq<nat>)
    requires r.Valid()
  {
    && ArePositions(after, IsSeen, ps) && |ps| == r.index - 1
    && (forall i :: 0 <= i < |ps| ==> IsOurPart(after[ps[i]], r, i + 1, r.prior[i]))
  }

  /** Nobody posted this part yet. */
  ghost predicate NotPosted(messages: History, r: Reply) {
    forall m :: m in messages && m.sender == AgentBot(r.bot) && m.marks.Some? ==>
      m.marks.value.replyHash
      != Some(if r.count == 1 then Batch(r.conversation, r.trigger)
              else Part(Batch(r.conversation, r.trigger), r.index, r.count))
  }

  lemma {:induction false} ShownIsFiltered(h: History)
    ensures Shown(h) == Filter(h, IsSeen)
  {
    if h != [] {
      ShownIsFiltered(h[1..]);
    }
  }

  lemma PartIsOurs(m: Message, r: Reply, p: nat, text: string)
    requires r.Valid()
    ensures IsPart(m, r, p, text) <==> IsOurPart(m, r, p, text)
  {
  }

  /** Showing exactly the earlier parts is having them at the positions of what is seen. */
  lemma ShowingIsHavingThem(after: History, r: Reply, ps: seq<nat>)
    requires r.Valid() && ArePositions(after, IsSeen, ps)
    ensures ShowsExactlyTheEarlierParts(Shown(after), r) <==> EarlierPartsAreAt(after, r, ps)
  {
    var qs := FilterPicks(after, IsSeen);
    PositionsAreUnique(after, IsSeen, ps, qs);
    ShownIsFiltered(after);
    if |ps| == r.index - 1 {
      HavingThem(Shown(after), after, r, ps);
    }
  }

  lemma HavingThem(shown: History, after: History, r: Reply, ps: seq<nat>)
    requires r.Valid() && Picks(shown, after, ps) && |ps| == r.index - 1
    ensures ShowsExactlyTheEarlierParts(shown, r)
            <==> forall i :: 0 <= i < |ps| ==> IsOurPart(after[ps[i]], r, i + 1, r.prior[i])
  {
    forall i | 0 <= i < |ps|
      ensures IsPart(shown[i], r, 0 + i + 1, r.prior[0 + i]) <==> IsOurPart(after[ps[i]], r, i + 1, r.prior[i])
    {
      PartIsOurs(shown[i], r, i + 1, r.prior[i]);
    }
    if ShowsTheRest(shown, r, 0) {
      forall i | 0 <= i < |ps|
        ensures IsOurPart(after[ps[i]], r, i + 1, r.prior[i])
      {
        assert IsPart(shown[i], r, 0 + i + 1, r.prior[0 + i]);
      }
    }
  }

  lemma NotPostedIsNoneCarries(messages: History, r: Reply)
    ensures NotPosted(messages, r) <==> NoneCarries(messages, r)
  {
  }

  /** Proceed: the contact's message is there, this part is not, and all that is shown
      after it are the earlier parts, each once, in order. */
  lemma ProceedSaysWhatIsThere(messages: History, r: Reply) returns (at: nat, ps: seq<nat>)
    requires r.Valid() && Decide(messages, r) == Proceed
    ensures TriggerIsAt(messages, r, at) && NotPosted(messages, r) && EarlierPartsAreAt(messages[at + 1..], r, ps)
  {
    ProceedMeansMayGoOut(messages, r);
    at := Find(messages, r.trigger).value;
    FirstWithTheId(messages, r.trigger);
    NotPostedIsNoneCarries(messages, r);
    ps := FilterPicks(messages[at + 1..], IsSeen);
    ShowingIsHavingThem(messages[at + 1..], r, ps);
  }

  /** What is seen after the trigger is of our bot. */
  lemma WhatIsSeenIsOurs(after: History, r: Reply, ps: seq<nat>, k: nat)
    requires r.Valid() && EarlierPartsAreAt(after, r, ps) && k < |after| && IsSeen(after[k])
    ensures after[k].sender == AgentBot(r.bot)
  {
    assert k in ps;
    var a :| 0 <= a < |ps| && ps[a] == k;
    assert IsOurPart(after[ps[a]], r, a + 1, r.prior[a]);
  }

  lemma TheLastIsOurs(messages: History, r: Reply)
    requires r.Valid() && messages != [] && Decide(messages, r) == Proceed
    requires var m := messages[|messages| - 1]; IsSeen(m) && m.id != r.trigger
    ensures messages[|messages| - 1].sender == AgentBot(r.bot)
  {
    var at, ps := ProceedSaysWhatIsThere(messages, r);
    LastIsOurs(messages, messages[at + 1..], r, ps);
  }

  lemma LastIsOurs(messages: History, after: History, r: Reply, ps: seq<nat>)
    requires r.Valid() && 0 < |after| <= |messages| && after == messages[|messages| - |after|..]
    requires EarlierPartsAreAt(after, r, ps) && IsSeen(messages[|messages| - 1])
    ensures messages[|messages| - 1].sender == AgentBot(r.bot)
  {
    WhatIsSeenIsOurs(after, r, ps, |after| - 1);
  }

  /** A public message of anybody else at the end, after the trigger, stops the reply. */
  lemma ALaterMessageStops(messages: History, r: Reply)
    requires r.Valid() && messages != []
    requires var m := messages[|messages| - 1]; IsSeen(m) && m.sender != AgentBot(r.bot) && m.id != r.trigger
    ensures Decide(messages, r) != Proceed
  {
    if Decide(messages, r) == Proceed {
      TheLastIsOurs(messages, r);
    }
  }

  /** And whenever that is what is there, the reply proceeds. */
  lemma WhatIsThereProceeds(messages: History, r: Reply, at: nat, ps: seq<nat>)
    requires r.Valid() && TriggerIsAt(messages, r, at) && NotPosted(messages, r) && EarlierPartsAreAt(messages[at + 1..], r, ps)
    ensures Decide(messages, r) == Proceed
  {
    TheTriggerIsFound(messages, r, at);
    NotPostedIsNoneCarries(messages, r);
    ShowingIsHavingThem(messages[at + 1..], r, ps);
    ProceedMeansMayGoOut(messages, r);
  }

  lemma {:induction false} FirstWithTheId(messages: History, id: int)
    ensures var at := Find(messages, id);
            at.Some? ==> forall i :: 0 <= i < at.value ==> messages[i].id != id
  {
    if messages != [] && messages[0].id != id {
      FirstWithTheId(messages[1..], id);
      var at := Find(messages, id);
      if at.Some? {
        forall i | 0 <= i < at.value
          ensures messages[i].id != id
        {
          if i > 0 {
            assert messages[i] == messages[1..][i - 1];
          }
        }
      }
    }
  }

  /** The part that is there already is reported with its id: the first message with
      the part's hash, when it is that part word for word. Anything else with the hash
      is an error. */
  lemma {:induction false} RepeatedSaysWhatIsThere(messages: History, r: Reply) returns (i: nat)
    requires r.Valid() && !NotPosted(messages, r)
    ensures i < |messages| && NotPosted(messages[..i], r) && !NotPosted([messages[i]], r)
    ensures Repeated(messages, r)
            == if IsOurPart(messages[i], r, r.index, r.content) then Duplicate(messages[i].id)
               else Raises("invalid_agent_bot_message")
  {
    assert messages == [messages[0]] + messages[1..];
    if Carries(messages[0], r.bot, r.ReplyHash()) {
      i := 0;
      PartIsOurs(messages[0], r, r.index, r.content);
    } else {
      var rest := RepeatedSaysWhatIsThere(messages[1..], r);
      i := rest + 1;
      assert messages[i] == messages[1..][rest];
      assert messages[..i] == [messages[0]] + messages[1..][..rest];
    }
  }

  /** A part that is there already decides: as a duplicate with its id, or as an error. */
  lemma AlreadyThere(messages: History, r: Reply, at: nat) returns (i: nat)
    requires r.Valid() && TriggerIsAt(messages, r, at) && !NotPosted(messages, r)
    ensures i < |messages| && NotPosted(messages[..i], r) && !NotPosted([messages[i]], r)
    ensures Decide(messages, r)
            == if IsOurPart(messages[i], r, r.index, r.content) then Duplicate(messages[i].id)
               else Raises("invalid_agent_bot_message")
  {
    TheTriggerIsFound(messages, r, at);
    i := RepeatedSaysWhatIsThere(messages, r);
  }

  lemma TheTriggerIsFound(messages: History, r: Reply, at: nat)
    requires TriggerIsAt(messages, r, at)
    ensures Find(messages, r.trigger) == Some(at)
  {
    FirstWithTheId(messages, r.trigger);
    assert messages[at] in messages;
  }

  ghost predicate IsEarlierPart(m: Message, r: Reply, p: nat)
    requires r.Valid()
  {
    1 <= p < r.index && IsOurPart(m, r, p, r.prior[p - 1])
  }

  /** Nobody sees it, or it is an earlier part. */
  ghost predicate DoesNotMatter(m: Message, r: Reply)
    requires r.Valid()
  {
    m.isPrivate != Some(false) || m.kind == Some(ACTIVITY) || exists p :: IsEarlierPart(m, r, p)
  }

  /** What a message that matters is told apart as: an earlier part that is not what was
      sent, a person of the team, or anything else. */
  ghost predicate StopsWith(m: Message, r: Reply, v: Verdict)
    requires r.Valid()
  {
    if r.count > 1 && (m.kind == Some(INCOMING) || m.kind == Some(OUTGOING)) && m.sender == AgentBot(r.bot) && m.marks.Some?
       && m.marks.value.batchHash == Some(Batch(r.conversation, r.trigger)) && m.marks.value.partCount == Some(r.count)
       && m.marks.value.partIndex.Some? && 1 <= m.marks.value.partIndex.value < r.index
    then v == Raises("invalid_agent_bot_message")
    else if m.kind == Some(OUTGOING) && (m.sender == Contact || m.sender == OtherSender)
    then v == Blocked("human_intervention")
    else v == Blocked("conversation_advanced")
  }

  lemma ReadOneSaysWhy(m: Message, r: Reply)
    requires r.Valid()
    ensures match ReadOne(m, r)
            case Skip => DoesNotMatter(m, r)
            case Prior(p) => IsEarlierPart(m, r, p)
            case Stop(v) => !DoesNotMatter(m, r) && StopsWith(m, r, v) && v != Proceed
  {
    ReadOneMeans(m, r);
    if ReadOne(m, r).Prior? {
      var p := ReadOne(m, r).index;
      PartIsOurs(m, r, p, r.prior[p - 1]);
    }
    forall p | IsEarlierPart(m, r, p)
      ensures ReadOne(m, r) == Prior(p) || !Relevant(m)
    {
      PartIsOurs(m, r, p, r.prior[p - 1]);
    }
  }

  lemma {:induction false} ScanSaysWhy(tail: History, r: Reply, found: seq<nat>) returns (k: nat)
    requires r.Valid() && Scan(tail, r, found) != Proceed
    ensures k <= |tail| && forall i :: 0 <= i < k ==> DoesNotMatter(tail[i], r)
    ensures if k == |tail| then Scan(tail, r, found) == Blocked("reply_sequence_incomplete")
            else !DoesNotMatter(tail[k], r) && StopsWith(tail[k], r, Scan(tail, r, found))
  {
    if tail == [] {
      k := 0;
    } else {
      ReadOneSaysWhy(tail[0], r);
      match ReadOne(tail[0], r) {
        case Skip =>
          var rest := ScanSaysWhy(tail[1..], r, found);
          k := rest + 1;
        case Prior(p) =>
          var rest := ScanSaysWhy(tail[1..], r, found + [p]);
          k := rest + 1;
        case Stop(_) =>
          k := 0;
      }
    }
  }

  /** When the reply does not proceed, the first message after the trigger that matters
      says why; without one, an earlier part is missing or out of its place. */
  lemma TheFirstThatMatters(messages: History, r: Reply, at: nat) returns (k: nat)
    requires r.Valid() && TriggerIsAt(messages, r, at) && NotPosted(messages, r) && Decide(messages, r) != Proceed
    ensures at < k <= |messages| && forall i :: at < i < k ==> DoesNotMatter(messages[i], r)
    ensures if k == |messages| then Decide(messages, r) == Blocked("reply_sequence_incomplete")
            else !DoesNotMatter(messages[k], r) && StopsWith(messages[k], r, Decide(messages, r))
  {
    TheScanDecides(messages, r, at);
    var tail := messages[at + 1..];
    var i := ScanSaysWhy(tail, r, []);
    k := at + 1 + i;
    forall j | at < j < k
      ensures DoesNotMatter(messages[j], r)
    {
      assert messages[j] == tail[j - at - 1];
    }
  }

  lemma TheScanDecides(messages: History, r: Reply, at: nat)
    requires r.Valid() && TriggerIsAt(messages, r, at) && NotPosted(messages, r)
    ensures Decide(messages, r) == Scan(messages[at + 1..], r, [])
  {
    TheTriggerIsFound(messages, r, at);
    NotPostedIsNoneCarries(messages, r);
    RepeatedMeans(messages, r);
  }

  /** Without the trigger, or with one that is not a message of the contact, nothing
      goes out. */
  lemma WithoutItsTrigger(messages: History, r: Reply)
    requires r.Valid() && forall at :: 0 <= at < |messages| ==> !TriggerIsAt(messages, r, at)
    ensures Decide(messages, r)
            == if forall m :: m in messages ==> m.id != r.trigger then Raises("trigger_message_not_found")
               else Blocked("invalid_trigger_message")
  {
    FirstWithTheId(messages, r.trigger);
    var found := Find(messages, r.trigger);
    if found.Some? {
      assert !TriggerIsAt(messages, r, found.value) && messages[found.value] in messages;
    }
  }
}
