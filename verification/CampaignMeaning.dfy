/** What a turn and a settling mean: which labels a turn carries, when it asks, and what an
    answer leaves, in terms of the segments, the messages and what is known. */
module CampaignMeaning {
  import opened Wrappers
  import opened Messages
  import opened Positions
  import opened CampaignEntry

  // -------------------------------------------------------------------------
  // The segments and the first message of the person
  // -------------------------------------------------------------------------

  predicate IsActive(setup: Setup, call: Call, segment: Segment) {
    segment in setup.segments && segment.validFrom <= call.now < segment.validUntil
  }

  lemma {:induction false} ActiveSegmentsAre(segments: seq<Segment>, now: int)
    ensures forall x :: x in ActiveSegments(segments, now) <==> x in segments && x.validFrom <= now < x.validUntil
  {
    if segments != [] {
      ActiveSegmentsAre(segments[1..], now);
      assert forall x :: x in segments <==> x == segments[0] || x in segments[1..];
    }
  }

  lemma {:induction false} FirstQuestionIs(segments: seq<Segment>)
    ensures FirstQuestion(segments).None? ==> forall x :: x in segments ==> !x.asks
    ensures FirstQuestion(segments).Some? ==> FirstQuestion(segments).value in segments && FirstQuestion(segments).value.asks
  {
    if segments != [] {
      FirstQuestionIs(segments[1..]);
      assert forall x :: x in segments <==> x == segments[0] || x in segments[1..];
    }
  }

  /** The question of a turn is that of the active segment that asks: there is only one. */
  lemma TheQuestionIs(setup: Setup, call: Call, question: Segment)
    requires setup.Valid() && IsActive(setup, call, question) && question.asks
    ensures FirstQuestion(ActiveSegments(setup.segments, call.now)) == Some(question)
  {
    ActiveSegmentsAre(setup.segments, call.now);
    FirstQuestionIs(ActiveSegments(setup.segments, call.now));
    var other := FirstQuestion(ActiveSegments(setup.segments, call.now)).value;
    var i :| 0 <= i < |setup.segments| && setup.segments[i] == question;
    var j :| 0 <= j < |setup.segments| && setup.segments[j] == other;
    AtOnce(setup, i, j, call.now);
  }

  lemma AtOnce(setup: Setup, i: nat, j: nat, now: int)
    requires setup.Valid() && i < |setup.segments| && j < |setup.segments|
    requires setup.segments[i].asks && setup.segments[i].validFrom <= now < setup.segments[i].validUntil
    requires setup.segments[j].asks && setup.segments[j].validFrom <= now < setup.segments[j].validUntil
    ensures i == j
  {
    assert setup.segments[i].Overlaps(setup.segments[j]) && setup.segments[j].Overlaps(setup.segments[i]);
  }

  /** The first message of the person is at `i`. */
  predicate FirstOfThePerson(messages: seq<Prompt>, i: int) {
    0 <= i < |messages| && messages[i].ofProspect && forall j :: 0 <= j < i ==> !messages[j].ofProspect
  }

  lemma {:induction false} FirstProspectIs(messages: seq<Prompt>)
    ensures match FirstProspect(messages)
            case None => forall i :: 0 <= i < |messages| ==> !messages[i].ofProspect
            case Some(first) => exists i :: FirstOfThePerson(messages, i) && messages[i] == first
  {
    if messages != [] {
      FirstProspectIs(messages[1..]);
      if FirstProspect(messages).Some? && !messages[0].ofProspect {
        var i :| FirstOfThePerson(messages[1..], i) && messages[1..][i] == FirstProspect(messages).value;
        assert forall j :: 1 <= j < |messages| ==> messages[j] == messages[1..][j - 1];
        assert FirstOfThePerson(messages, i + 1);
      } else if messages[0].ofProspect {
        assert FirstOfThePerson(messages, 0);
      }
    }
  }

  /** The first message of the person is of this turn and has a keyword of the segment. */
  ghost predicate NamedFirst(setup: Setup, call: Call, segment: Segment) {
    exists i, k :: FirstOfThePerson(call.messages, i) && call.messages[i].ref in call.batch
                   && 0 <= k < |segment.keywords| && setup.mentions(call.messages[i].text, segment.keywords[k])
  }

  /** The label was put before in this conversation. */
  ghost predicate WasEntered(s: State, conversation: int, tag: string) {
    exists labels :: (conversation, labels) in s.entered && tag in labels
  }

  lemma EnteredIs(s: State, conversation: int, tag: string)
    requires Unique(s.entered)
    ensures tag in LabelsOf(s, conversation) <==> WasEntered(s, conversation, tag)
  {
    FindMeans(s.entered, conversation);
  }

  // -------------------------------------------------------------------------
  // The keywords
  // -------------------------------------------------------------------------

  /** One of these segments with that label is named in the text. */
  ghost predicate Names(setup: Setup, text: string, active: seq<Segment>, tag: string) {
    exists x :: x in active && x.tag == tag && NamedIn(setup, x, text)
  }

  lemma NamesFirstOrRest(setup: Setup, text: string, active: seq<Segment>, tag: string)
    requires active != []
    ensures Names(setup, text, active, tag)
            <==> (active[0].tag == tag && NamedIn(setup, active[0], text)) || Names(setup, text, active[1..], tag)
  {
    if x :| x in active && x.tag == tag && NamedIn(setup, x, text) {
      assert x == active[0] || x in active[1..];
    }
  }

  /** The pass over the keywords, for one label: when it is present and added afterwards. */
  lemma {:induction false} KeywordPassAdds(
      setup: Setup, call: Call, text: string, active: seq<Segment>, before: Pass, tag: string)
    requires !before.failed
    ensures var after := KeywordPass(setup, call, text, active, before);
            !after.failed ==>
              && (tag in after.present <==> tag in before.present || Names(setup, text, active, tag))
              && (tag in after.added <==> tag in before.added || (tag !in before.present && Names(setup, text, active, tag)))
  {
    if active != [] {
      var segment := active[0];
      NamesFirstOrRest(setup, text, active, tag);
      if segment.tag in before.present || !NamedIn(setup, segment, text) {
        KeywordPassAdds(setup, call, text, active[1..], before, tag);
      } else if segment.tag !in call.macroFails {
        KeywordPassAdds(setup, call, text, active[1..],
                        Pass(Enter(before.state, call.conversation, segment.tag, setup.remembered),
                             before.present + {segment.tag}, before.added + [segment.tag], false), tag);
      }
    }
  }

  /** It fails at the first macro that fails, of a label that is not present. */
  ghost predicate FailsAt(setup: Setup, call: Call, text: string, active: seq<Segment>, present: set<string>) {
    exists tag :: tag in call.macroFails && tag !in present && Names(setup, text, active, tag)
  }

  lemma FailsFirstOrRest(setup: Setup, call: Call, text: string, active: seq<Segment>, present: set<string>)
    requires active != []
    ensures FailsAt(setup, call, text, active, present)
            <==> (active[0].tag in call.macroFails && active[0].tag !in present && NamedIn(setup, active[0], text))
                 || FailsAt(setup, call, text, active[1..], present)
  {
    forall tag
      ensures Names(setup, text, active, tag)
              <==> (active[0].tag == tag && NamedIn(setup, active[0], text)) || Names(setup, text, active[1..], tag)
    {
      NamesFirstOrRest(setup, text, active, tag);
    }
  }

  lemma {:induction false} KeywordPassFails(setup: Setup, call: Call, text: string, active: seq<Segment>, before: Pass)
    requires !before.failed
    ensures KeywordPass(setup, call, text, active, before).failed <==> FailsAt(setup, call, text, active, before.present)
  {
    if active != [] {
      var segment := active[0];
      FailsFirstOrRest(setup, call, text, active, before.present);
      if segment.tag in before.present || !NamedIn(setup, segment, text) {
        KeywordPassFails(setup, call, text, active[1..], before);
      } else if segment.tag !in call.macroFails {
        var next := Pass(Enter(before.state, call.conversation, segment.tag, setup.remembered),
                         before.present + {segment.tag}, before.added + [segment.tag], false);
        KeywordPassFails(setup, call, text, active[1..], next);
        assert FailsAt(setup, call, text, active[1..], next.present) <==> FailsAt(setup, call, text, active[1..], before.present);
      }
    }
  }

  lemma {:induction false} NotYetInIs(remembered: seq<string>, labels: set<string>)
    ensures forall tag :: tag in NotYetIn(remembered, labels) <==> tag in remembered && tag !in labels
  {
    if remembered != [] {
      NotYetInIs(remembered[1..], labels);
      assert forall tag :: tag in remembered <==> tag == remembered[0] || tag in remembered[1..];
    }
  }

  lemma NamedFirstIs(setup: Setup, call: Call, segment: Segment)
    ensures var first := FirstProspect(call.messages);
            NamedFirst(setup, call, segment)
            <==> first.Some? && first.value.ref in call.batch && NamedIn(setup, segment, first.value.text)
  {
    FirstProspectIs(call.messages);
  }

  /** The conversation has the label, in the webhook or from before. */
  ghost predicate HadBefore(call: Call, s: State, tag: string) {
    tag in call.labels || WasEntered(s, call.conversation, tag)
  }

  /** An active segment with that label is named in the first message of the person. */
  ghost predicate TagNamed(setup: Setup, call: Call, tag: string) {
    exists x :: IsActive(setup, call, x) && x.tag == tag && NamedFirst(setup, call, x)
  }

  /** A label that was put before and is not in the webhook yet, or a new one by a keyword. */
  ghost predicate ByMemoryOrKeyword(setup: Setup, call: Call, s: State, tag: string) {
    tag !in call.labels && (WasEntered(s, call.conversation, tag) || TagNamed(setup, call, tag))
  }

  ghost predicate KeywordFails(setup: Setup, call: Call, s: State) {
    exists tag :: tag in call.macroFails && TagNamed(setup, call, tag) && !HadBefore(call, s, tag)
  }

  lemma FirstPassIs(setup: Setup, call: Call, s: State)
    requires Unique(s.entered)
    ensures var pass := FirstPass(setup, call, s);
            && !pass.failed
            && (forall tag :: tag in pass.present <==> HadBefore(call, s, tag))
            && (forall tag :: tag in pass.added <==> tag !in call.labels && WasEntered(s, call.conversation, tag))
  {
    NotYetInIs(LabelsOf(s, call.conversation), call.labels);
    forall tag
      ensures tag in LabelsOf(s, call.conversation) <==> WasEntered(s, call.conversation, tag)
    {
      EnteredIs(s, call.conversation, tag);
    }
  }

  /** The first half of a turn: what is present, what is added, and when it fails. */
  lemma AfterKeywordsIs(setup: Setup, call: Call, s: State)
    requires Unique(s.entered)
    ensures var pass := AfterKeywords(setup, call, s);
            && (pass.failed <==> KeywordFails(setup, call, s))
            && (!pass.failed ==> forall tag :: tag in pass.present <==> HadBefore(call, s, tag) || TagNamed(setup, call, tag))
            && (!pass.failed ==> forall tag :: tag in pass.added <==> ByMemoryOrKeyword(setup, call, s, tag))
  {
    FirstPassIs(setup, call, s);
    var first, start := FirstProspect(call.messages), FirstPass(setup, call, s);
    forall tag
      ensures TagNamed(setup, call, tag)
              <==> first.Some? && first.value.ref in call.batch
                   && Names(setup, first.value.text, ActiveSegments(setup.segments, call.now), tag)
    {
      TagNamedIs(setup, call, tag);
    }
    if first.Some? && first.value.ref in call.batch {
      var active := ActiveSegments(setup.segments, call.now);
      KeywordPassFails(setup, call, first.value.text, active, start);
      forall tag {
        KeywordPassAdds(setup, call, first.value.text, active, start, tag);
      }
    }
  }

  lemma TagNamedIs(setup: Setup, call: Call, tag: string)
    ensures var first := FirstProspect(call.messages);
            TagNamed(setup, call, tag)
            <==> first.Some? && first.value.ref in call.batch
                 && Names(setup, first.value.text, ActiveSegments(setup.segments, call.now), tag)
  {
    ActiveSegmentsAre(setup.segments, call.now);
    forall x
      ensures NamedFirst(setup, call, x)
              <==> FirstProspect(call.messages).Some? && FirstProspect(call.messages).value.ref in call.batch
                   && NamedIn(setup, x, FirstProspect(call.messages).value.text)
    {
      NamedFirstIs(setup, call, x);
    }
  }

  // -------------------------------------------------------------------------
  // The question
  // -------------------------------------------------------------------------

  /** The person opened the conversation: a public message of the contact comes first after
      the command that resets it, or in the history, not counting what is not public, the
      activity lines and the confirmation of the reset; and no reset comes after it. */
  ghost predicate ContactCameFirst(history: History, command: string, confirmation: string) {
    exists start, i :: CameFirstAt(history, start, i, command, confirmation)
  }

  ghost predicate CameFirstAt(history: History, start: int, i: int, command: string, confirmation: string) {
    && 0 <= start <= i < |history|
    && history[i].kind == Some(INCOMING) && history[i].sender == Contact && history[i].isPrivate == Some(false)
    && (start == 0 || (history[start - 1].kind == Some(INCOMING) && history[start - 1].content == command))
    && (forall j :: i <= j < |history| ==> !(history[j].kind == Some(INCOMING) && history[j].content == command))
    && (forall j :: start <= j < i ==>
          history[j].isPrivate != Some(false) || history[j].kind == Some(ACTIVITY)
          || (history[j].kind == Some(OUTGOING) && history[j].content == confirmation))
  }

  lemma WhoOpened(history: History, command: string, confirmation: string)
    ensures PersonOpened(history, command, confirmation) <==> ContactCameFirst(history, command, confirmation)
  {
    if PersonOpened(history, command, confirmation) {
      var i :| 0 <= i < |history|
        && (forall j :: i <= j < |history| ==> !IsReset(history[j], command))
        && history[i].kind == Some(INCOMING) && history[i].sender == Contact && !Passed(history[i], confirmation)
        && FirstCounted(history, i, command, confirmation);
      HasItsStart(history, i, command, confirmation);
    }
    if start, i :| CameFirstAt(history, start, i, command, confirmation) {
      IsFirstCounted(history, start, i, command, confirmation);
    }
  }

  lemma HasItsStart(history: History, i: nat, command: string, confirmation: string)
    requires i < |history| && forall j :: i <= j < |history| ==> !IsReset(history[j], command)
    requires history[i].kind == Some(INCOMING) && history[i].sender == Contact && !Passed(history[i], confirmation)
    requires FirstCounted(history, i, command, confirmation)
    ensures ContactCameFirst(history, command, confirmation)
  {
    var start :| 0 <= start <= i && AfterReset(history, start, command)
      && forall j :: start <= j < i ==> Passed(history[j], confirmation);
    forall j | i <= j < |history|
      ensures !(history[j].kind == Some(INCOMING) && history[j].content == command)
    {
      assert !IsReset(history[j], command);
    }
    assert CameFirstAt(history, start, i, command, confirmation);
  }

  lemma IsFirstCounted(history: History, start: int, i: int, command: string, confirmation: string)
    requires CameFirstAt(history, start, i, command, confirmation)
    ensures PersonOpened(history, command, confirmation)
  {
    assert AfterReset(history, start, command);
    assert FirstCounted(history, i, command, confirmation);
  }

  /** The conversation may be asked: it has not the label, by now, the person opened it,
      and wrote the first message once the campaign had begun. */
  ghost predicate MayBeAsked(setup: Setup, call: Call, s: State, question: Segment) {
    && IsActive(setup, call, question) && question.asks
    && !HadBefore(call, s, question.tag) && !TagNamed(setup, call, question.tag)
    && ContactCameFirst(call.history, setup.command, setup.confirmation)
    && exists i :: FirstOfThePerson(call.messages, i) && call.messages[i].createdAt.Some?
                   && call.messages[i].createdAt.value >= question.validFrom
  }

  /** What the conversation answered is known: it is remembered, or else the database can
      be read and has it. */
  ghost predicate HasSaid(s: State, pair: Pair, answer: Answer, readFails: bool) {
    || (pair, answer) in s.answered
    || ((forall a :: (pair, a) !in s.answered) && !readFails && pair in s.stored && s.stored[pair] == answer)
  }

  /** Nothing is remembered, and the database can be read and has nothing. */
  ghost predicate HasNotSaid(s: State, pair: Pair, readFails: bool) {
    (forall a :: (pair, a) !in s.answered) && !readFails && pair !in s.stored
  }

  lemma KnownIs(s: State, pair: Pair, readFails: bool, limit: nat)
    requires Unique(s.answered)
    ensures var known := KnownAnswer(s, pair, readFails, limit).0;
            && (forall answer :: known == Given(answer) <==> HasSaid(s, pair, answer, readFails))
            && (known == Nothing <==> HasNotSaid(s, pair, readFails))
  {
    FindMeans(s.answered, pair);
  }

  /** The question of the turn was answered with yes, so its label is put now. */
  ghost predicate SaysYes(setup: Setup, call: Call, s: State, question: Segment) {
    MayBeAsked(setup, call, s, question) && HasSaid(s, Pair(call.conversation, question.key), Yes, call.readFails)
  }

  /** A turn is without entry: the history is not whole, no segment is active, or a macro
      fails. */
  ghost predicate IsWithout(setup: Setup, call: Call, s: State) {
    || !call.complete || (forall x :: !IsActive(setup, call, x)) || KeywordFails(setup, call, s)
    || (exists q :: SaysYes(setup, call, s, q) && q.tag in call.macroFails)
  }

  /** The first half went through; `pass` is what it left. */
  ghost predicate IsPassOf(setup: Setup, call: Call, s: State, pass: Pass) {
    && !pass.failed && Unique(pass.state.answered)
    && pass.state.answered == s.answered && pass.state.stored == s.stored
    && (forall tag :: tag in pass.present <==> HadBefore(call, s, tag) || TagNamed(setup, call, tag))
    && (forall tag :: tag in pass.added <==> ByMemoryOrKeyword(setup, call, s, tag))
  }

  lemma MayAskIs(setup: Setup, call: Call, s: State, pass: Pass, question: Segment)
    requires IsPassOf(setup, call, s, pass) && IsActive(setup, call, question) && question.asks
    ensures MayAsk(setup, call, question, pass.present) <==> MayBeAsked(setup, call, s, question)
  {
    FirstProspectIs(call.messages);
    WhoOpened(call.history, setup.command, setup.confirmation);
  }

  /** The second half of a turn, with the question of the active segment. */
  lemma AskIs(setup: Setup, call: Call, s: State, pass: Pass, question: Segment)
    requires setup.Valid() && IsPassOf(setup, call, s, pass) && IsActive(setup, call, question) && question.asks
    ensures var turn := Ask(setup, call, pass).0;
            var pair := Pair(call.conversation, question.key);
            if SaysYes(setup, call, s, question) then
              turn == (if question.tag in call.macroFails then Turn([], None, None)
                       else Turn(pass.added + [question.tag], None, None))
            else if MayBeAsked(setup, call, s, question) && HasNotSaid(s, pair, call.readFails) then
              turn == Turn(pass.added, Some(question), Some(question.key))
            else turn == Turn(pass.added, None, None)
  {
    TheQuestionIs(setup, call, question);
    MayAskIs(setup, call, s, pass, question);
    var pair := Pair(call.conversation, question.key);
    KnownIs(pass.state, pair, call.readFails, setup.remembered);
    assert HasSaid(pass.state, pair, Yes, call.readFails) <==> HasSaid(s, pair, Yes, call.readFails);
    assert HasNotSaid(pass.state, pair, call.readFails) <==> HasNotSaid(s, pair, call.readFails);
  }

  lemma WithoutQuestion(setup: Setup, call: Call, pass: Pass)
    requires forall q :: IsActive(setup, call, q) ==> !q.asks
    ensures Ask(setup, call, pass).0 == Turn(pass.added, None, None)
  {
    ActiveSegmentsAre(setup.segments, call.now);
    FirstQuestionIs(ActiveSegments(setup.segments, call.now));
  }

  lemma PassIs(setup: Setup, call: Call, s: State)
    requires setup.Valid() && Inv(s, setup.remembered)
    ensures var pass := AfterKeywords(setup, call, s);
            (pass.failed <==> KeywordFails(setup, call, s)) && (!pass.failed ==> IsPassOf(setup, call, s, pass))
  {
    AfterKeywordsIs(setup, call, s);
    AfterKeywordsKeeps(setup, call, s);
  }

  lemma NoActiveSegment(setup: Setup, call: Call)
    ensures ActiveSegments(setup.segments, call.now) == [] <==> forall x :: !IsActive(setup, call, x)
  {
    var active := ActiveSegments(setup.segments, call.now);
    ActiveSegmentsAre(setup.segments, call.now);
    if active != [] {
      assert IsActive(setup, call, active[0]);
    }
  }

  /** The labels of a turn are exactly those put before that the webhook does not bring
      yet, those of the active segments named in the first message of the person when it
      is of this turn, and that of the question when its known answer is yes. */
  lemma WhatATurnAdds(setup: Setup, call: Call, s: State, tag: string)
    requires setup.Valid() && Inv(s, setup.remembered)
    ensures IsWithout(setup, call, s) ==> TakeTurn(setup, call, s).0 == Turn([], None, None)
    ensures !IsWithout(setup, call, s) ==>
              (tag in TakeTurn(setup, call, s).0.labels
               <==> || (tag !in call.labels && (WasEntered(s, call.conversation, tag) || TagNamed(setup, call, tag)))
                    || exists q :: SaysYes(setup, call, s, q) && q.tag == tag)
  {
    NoActiveSegment(setup, call);
    PassIs(setup, call, s);
    var pass := AfterKeywords(setup, call, s);
    if call.complete && !pass.failed && ActiveSegments(setup.segments, call.now) != [] {
      if question :| IsActive(setup, call, question) && question.asks {
        AskIs(setup, call, s, pass, question);
        OnlyOneQuestion(setup, call, s, question);
      } else {
        WithoutQuestion(setup, call, pass);
      }
    }
  }

  lemma OnlyOneQuestion(setup: Setup, call: Call, s: State, question: Segment)
    requires setup.Valid() && IsActive(setup, call, question) && question.asks
    ensures forall q :: MayBeAsked(setup, call, s, q) ==> q == question
  {
    TheQuestionIs(setup, call, question);
    forall q | MayBeAsked(setup, call, s, q)
      ensures q == question
    {
      TheQuestionIs(setup, call, q);
    }
  }

  /** A turn carries the question exactly when the conversation may be asked and it is
      known that it did not answer. */
  lemma WhenATurnAsks(setup: Setup, call: Call, s: State, question: Segment)
    requires setup.Valid() && Inv(s, setup.remembered)
    ensures TakeTurn(setup, call, s).0.notice == Some(question)
            <==> && !IsWithout(setup, call, s) && MayBeAsked(setup, call, s, question)
                 && HasNotSaid(s, Pair(call.conversation, question.key), call.readFails)
    ensures TakeTurn(setup, call, s).0.notice == Some(question) ==> TakeTurn(setup, call, s).0.pending == Some(question.key)
  {
    NoActiveSegment(setup, call);
    PassIs(setup, call, s);
    var pass := AfterKeywords(setup, call, s);
    if call.complete && !pass.failed && ActiveSegments(setup.segments, call.now) != [] {
      if q :| IsActive(setup, call, q) && q.asks {
        AskIs(setup, call, s, pass, q);
        OnlyOneQuestion(setup, call, s, q);
      } else {
        WithoutQuestion(setup, call, pass);
      }
    }
  }

  // -------------------------------------------------------------------------
  // What is remembered
  // -------------------------------------------------------------------------

  function OfAnother<K(==, !new), V(!new)>(k: K): ((K, V)) -> bool {
    (entry: (K, V)) => entry.0 != k
  }

  lemma {:induction false} WithoutIsFiltered<K(!new), V(!new)>(r: Recent<K, V>, k: K)
    ensures Without(r, k) == Filter(r, OfAnother(k))
  {
    if r != [] {
      WithoutIsFiltered(r[1..], k);
    }
  }

  /** What is set goes last; before it are, in their order, the newest entries of the other
      keys, all of them as long as they fit. */
  lemma WhatIsKept<K(!new), V(!new)>(r: Recent<K, V>, k: K, v: V, limit: nat) returns (ps: seq<nat>)
    requires limit >= 1
    ensures ArePositions(r, OfAnother(k), ps)
    ensures var kept := Put(r, k, v, limit);
            && |kept| == (if |ps| + 1 <= limit then |ps| + 1 else limit)
            && kept[|kept| - 1] == (k, v)
            && forall a :: 0 <= a < |kept| - 1 ==> kept[a] == r[ps[|ps| - |kept| + 1 + a]]
  {
    ps := FilterPicks(r, OfAnother(k));
    WithoutIsFiltered(r, k);
    var all := Without(r, k) + [(k, v)];
    assert Put(r, k, v, limit) == Last(all, limit);
  }

  // -------------------------------------------------------------------------
  // What is entered
  // -------------------------------------------------------------------------

  /** A label that is entered is remembered, with those the conversation had; no other is new. */
  lemma EnterAdds(s: State, conversation: int, tag: string, limit: nat)
    requires Unique(s.entered) && limit >= 1
    ensures Unique(Enter(s, conversation, tag, limit).entered)
    ensures WasEntered(Enter(s, conversation, tag, limit), conversation, tag)
    ensures forall x :: WasEntered(s, conversation, x) ==> WasEntered(Enter(s, conversation, tag, limit), conversation, x)
    ensures forall c, x :: WasEntered(Enter(s, conversation, tag, limit), c, x) ==>
              WasEntered(s, c, x) || (c == conversation && x == tag)
  {
    var current := LabelsOf(s, conversation);
    var labels := if tag in current then current else current + [tag];
    PutKeeps(s.entered, conversation, labels, limit);
    assert (conversation, labels) in Enter(s, conversation, tag, limit).entered;
    FindMeans(s.entered, conversation);
  }

  lemma TouchKeeps(s: State, conversation: int, limit: nat)
    requires Unique(s.entered) && limit >= 1
    ensures Unique(Touch(s, conversation, limit).entered)
    ensures forall x :: WasEntered(s, conversation, x) ==> WasEntered(Touch(s, conversation, limit), conversation, x)
    ensures forall c, x :: WasEntered(Touch(s, conversation, limit), c, x) ==> WasEntered(s, c, x)
  {
    FindMeans(s.entered, conversation);
    var found := Find(s.entered, conversation);
    if found.Some? {
      PutKeeps(s.entered, conversation, found.value, limit);
    }
  }

  lemma {:induction false} KeywordPassEnters(
      setup: Setup, call: Call, text: string, active: seq<Segment>, before: Pass, c: int, tag: string)
    requires setup.remembered >= 1 && Unique(before.state.entered)
    ensures var after := KeywordPass(setup, call, text, active, before);
            && Unique(after.state.entered)
            && (WasEntered(after.state, c, tag) ==>
                  WasEntered(before.state, c, tag) || (c == call.conversation && Names(setup, text, active, tag)))
            && (WasEntered(before.state, call.conversation, tag) ==> WasEntered(after.state, call.conversation, tag))
            && (tag in after.added ==> tag in before.added || WasEntered(after.state, call.conversation, tag))
  {
    if active != [] && !before.failed {
      var segment := active[0];
      NamesFirstOrRest(setup, text, active, tag);
      if segment.tag in before.present || !NamedIn(setup, segment, text) {
        KeywordPassEnters(setup, call, text, active[1..], before, c, tag);
      } else if segment.tag !in call.macroFails {
        var next := Enter(before.state, call.conversation, segment.tag, setup.remembered);
        EnterAdds(before.state, call.conversation, segment.tag, setup.remembered);
        KeywordPassEnters(setup, call, text, active[1..],
                          Pass(next, before.present + {segment.tag}, before.added + [segment.tag], false), c, tag);
      }
    }
  }

  lemma AfterKeywordsEnters(setup: Setup, call: Call, s: State, c: int, tag: string)
    requires setup.remembered >= 1 && Unique(s.entered)
    ensures var after := AfterKeywords(setup, call, s);
            && Unique(after.state.entered)
            && (WasEntered(after.state, c, tag) ==> WasEntered(s, c, tag) || (c == call.conversation && TagNamed(setup, call, tag)))
            && (tag in after.added ==> WasEntered(after.state, call.conversation, tag))
  {
    TouchKeeps(s, call.conversation, setup.remembered);
    FirstPassIs(setup, call, s);
    TagNamedIs(setup, call, tag);
    var first := FirstProspect(call.messages);
    if first.Some? && first.value.ref in call.batch {
      KeywordPassEnters(setup, call, first.value.text, ActiveSegments(setup.segments, call.now), FirstPass(setup, call, s), c, tag);
    }
  }

  /** A turn enters a label in its own conversation only, by a keyword or a known yes; and
      what it carries is remembered. */
  lemma WhatATurnEnters(setup: Setup, call: Call, s: State, c: int, tag: string)
    requires setup.Valid() && Inv(s, setup.remembered)
    ensures var (turn, after) := TakeTurn(setup, call, s);
            && (WasEntered(after, c, tag) ==>
                  || WasEntered(s, c, tag)
                  || (c == call.conversation
                      && (TagNamed(setup, call, tag) || exists q :: SaysYes(setup, call, s, q) && q.tag == tag)))
            && (tag in turn.labels ==> WasEntered(after, call.conversation, tag))
  {
    AfterKeywordsEnters(setup, call, s, c, tag);
    PassIs(setup, call, s);
    var pass := AfterKeywords(setup, call, s);
    if !pass.failed {
      AskEnters(setup, call, s, pass, c, tag);
    }
  }

  lemma YesIsYes(setup: Setup, call: Call, s: State, pass: Pass, question: Segment)
    requires IsPassOf(setup, call, s, pass) && IsActive(setup, call, question) && question.asks
    ensures MayAsk(setup, call, question, pass.present)
            && KnownAnswer(pass.state, Pair(call.conversation, question.key), call.readFails, setup.remembered).0 == Given(Yes)
            <==> SaysYes(setup, call, s, question)
  {
    var pair := Pair(call.conversation, question.key);
    MayAskIs(setup, call, s, pass, question);
    KnownIs(pass.state, pair, call.readFails, setup.remembered);
    assert HasSaid(pass.state, pair, Yes, call.readFails) <==> HasSaid(s, pair, Yes, call.readFails);
  }

  /** What the second half of a turn leaves entered: the label of a yes, and what was. */
  lemma AskLeaves(setup: Setup, call: Call, s: State, pass: Pass, question: Segment)
    requires setup.Valid() && IsPassOf(setup, call, s, pass)
    requires FirstQuestion(ActiveSegments(setup.segments, call.now)) == Some(question)
    requires IsActive(setup, call, question) && question.asks
    ensures var (turn, after) := Ask(setup, call, pass);
            if SaysYes(setup, call, s, question) && question.tag !in call.macroFails then
              && after.entered == Enter(pass.state, call.conversation, question.tag, setup.remembered).entered
              && turn.labels == pass.added + [question.tag]
            else after.entered == pass.state.entered && (turn.labels == pass.added || turn.labels == [])
  {
    YesIsYes(setup, call, s, pass, question);
  }

  lemma AskEnters(setup: Setup, call: Call, s: State, pass: Pass, c: int, tag: string)
    requires setup.Valid() && IsPassOf(setup, call, s, pass) && Unique(pass.state.entered)
    ensures var (turn, after) := Ask(setup, call, pass);
            && (WasEntered(after, c, tag) ==>
                  || WasEntered(pass.state, c, tag)
                  || (c == call.conversation && exists q :: SaysYes(setup, call, s, q) && q.tag == tag))
            && (WasEntered(pass.state, call.conversation, tag) ==> WasEntered(after, call.conversation, tag))
            && (tag in turn.labels ==> tag in pass.added || WasEntered(after, call.conversation, tag))
  {
    var found := FirstQuestion(ActiveSegments(setup.segments, call.now));
    ActiveSegmentsAre(setup.segments, call.now);
    FirstQuestionIs(ActiveSegments(setup.segments, call.now));
    if found.Some? {
      AskLeaves(setup, call, s, pass, found.value);
      EnterAdds(pass.state, call.conversation, found.value.tag, setup.remembered);
      SameEntered(Ask(setup, call, pass).1, Enter(pass.state, call.conversation, found.value.tag, setup.remembered), c, tag);
      SameEntered(Ask(setup, call, pass).1, pass.state, c, tag);
    }
  }

  lemma SameEntered(a: State, b: State, c: int, tag: string)
    ensures a.entered == b.entered ==> (WasEntered(a, c, tag) <==> WasEntered(b, c, tag))
  {
  }

  /** A settling: a label is entered only for a yes, whose macro did not fail, and in its
      conversation; the answer is stored unless the recording failed before, or the
      database keeps the first one; and it is remembered when the recording did not fail. */
  lemma WhatASettlingLeaves(
      setup: Setup, s: State, pair: Pair, tag: string, answer: Answer, policy: Policy, recording: Recording, macroFails: bool)
    requires setup.Valid() && Inv(s, setup.remembered)
    ensures var after := Settle(setup, s, pair, tag, answer, policy, recording, macroFails);
            && (answer == No || macroFails ==> after.entered == s.entered)
            && (answer == Yes && !macroFails ==> WasEntered(after, pair.conversation, tag))
            && (forall c, x :: WasEntered(after, c, x) ==>
                  WasEntered(s, c, x) || (c == pair.conversation && x == tag && answer == Yes && !macroFails))
            && (forall p :: p != pair ==> (p in after.stored <==> p in s.stored) && (p in s.stored ==> after.stored[p] == s.stored[p]))
            && (recording == FailsBefore ==> after.stored == s.stored)
            && (recording != FailsBefore ==>
                  pair in after.stored && after.stored[pair] == if policy == KeepFirst && pair in s.stored then s.stored[pair] else answer)
            && (recording == Stores ==> (pair, answer) in after.answered)
            && (recording != Stores ==> after.answered == s.answered)
            && (forall p :: p in after.answered ==> p in s.answered || (p == (pair, answer) && recording == Stores))
  {
    var recorded := if recording == FailsBefore then s else s.(stored := Record(s.stored, pair, answer, policy));
    PutKeeps(s.answered, pair, answer, setup.remembered);
    var remembered := if recording == Stores then Remember(recorded, pair, answer, setup.remembered) else recorded;
    EnterAdds(remembered, pair.conversation, tag, setup.remembered);
  }

  /** Why an event may enter a label in a conversation. */
  ghost predicate IsReason(setup: Setup, s: State, event: Event, conversation: int, tag: string) {
    match event
    case Turns(call) =>
      call.conversation == conversation
      && (TagNamed(setup, call, tag) || exists q :: SaysYes(setup, call, s, q) && q.tag == tag)
    case Settles(pair, entered, answer, _, macroFails) =>
      pair.conversation == conversation && entered == tag && answer == Yes && !macroFails
    case Elsewhere(_, _) => false
  }

  /** Over every run: a label that is remembered of a conversation and was not at the
      start was named in its first message, or answered with yes. */
  lemma {:induction false} EveryLabelHasAReason(
      setup: Setup, policy: Policy, s: State, events: seq<Event>, conversation: int, tag: string)
    returns (i: nat)
    requires setup.Valid() && Inv(s, setup.remembered)
    requires WasEntered(Run(setup, policy, s, events), conversation, tag) && !WasEntered(s, conversation, tag)
    ensures i < |events| && IsReason(setup, Run(setup, policy, s, events[..i]), events[i], conversation, tag)
    decreases |events|
  {
    var next := Next(setup, policy, s, events[0]);
    NextKeeps(setup, policy, s, events[0]);
    if WasEntered(next, conversation, tag) {
      i := 0;
      EntersForAReason(setup, policy, s, events[0], conversation, tag);
    } else {
      var later := EveryLabelHasAReason(setup, policy, next, events[1..], conversation, tag);
      i := later + 1;
      assert events[..i][1..] == events[1..][..later];
    }
  }

  lemma EntersForAReason(setup: Setup, policy: Policy, s: State, event: Event, conversation: int, tag: string)
    requires setup.Valid() && Inv(s, setup.remembered)
    requires WasEntered(Next(setup, policy, s, event), conversation, tag) && !WasEntered(s, conversation, tag)
    ensures IsReason(setup, s, event, conversation, tag)
  {
    match event
    case Turns(call) => WhatATurnEnters(setup, call, s, conversation, tag);
    case Settles(pair, entered, answer, recording, macroFails) =>
      WhatASettlingLeaves(setup, s, pair, entered, answer, policy, recording, macroFails);
    case Elsewhere(_, _) =>
  }
}
