/** The entry to a campaign (`CampaignEntry`): the label of whoever writes its keyword
    first, the one question to whoever writes without it, and what is remembered of the
    answers that the database keeps. */
module CampaignEntry {
  import opened Wrappers
  import opened Messages

  // -------------------------------------------------------------------------
  // Segments
  // -------------------------------------------------------------------------

  datatype Segment = Segment(
    key: string, tag: string, validFrom: int, validUntil: int, keywords: seq<string>, asks: bool)
  {
    /** `state_at`: the end is not included. */
    predicate ActiveAt(now: int) {
      validFrom <= now < validUntil
    }

    predicate Overlaps(other: Segment) {
      validFrom < other.validUntil && other.validFrom < validUntil
    }
  }

  function ActiveSegments(segments: seq<Segment>, now: int): seq<Segment> {
    if segments == [] then []
    else (if segments[0].ActiveAt(now) then [segments[0]] else []) + ActiveSegments(segments[1..], now)
  }

  function FirstQuestion(segments: seq<Segment>): Option<Segment> {
    if segments == [] then None else if segments[0].asks then Some(segments[0]) else FirstQuestion(segments[1..])
  }

  datatype ConfigError = WithoutSegments | WithoutMacro | WithoutDatabase | TwoQuestionsOverlap

  predicate QuestionsApart(segments: seq<Segment>) {
    forall i, j :: 0 <= i < j < |segments| && segments[i].asks && segments[j].asks ==> !segments[i].Overlaps(segments[j])
  }

  /** The checks of the constructor. */
  method CheckConfig(segments: seq<Segment>, labelers: set<string>, hasDatabase: bool, remembered: int)
    returns (error: Option<ConfigError>)
    ensures error.None? <==>
              && segments != [] && remembered >= 1
              && (forall i :: 0 <= i < |segments| ==> segments[i].tag in labelers)
              && ((exists i :: 0 <= i < |segments| && segments[i].asks) ==> hasDatabase)
              && QuestionsApart(segments)
  {
    if segments == [] || remembered < 1 {
      return Some(WithoutSegments);
    }
    if exists i :: 0 <= i < |segments| && segments[i].tag !in labelers {
      return Some(WithoutMacro);
    }
    if !hasDatabase && exists i :: 0 <= i < |segments| && segments[i].asks {
      return Some(WithoutDatabase);
    }
    for i := 0 to |segments|
      invariant forall a, b :: 0 <= a < i && a < b < |segments| && segments[a].asks && segments[b].asks ==>
                  !segments[a].Overlaps(segments[b])
    {
      for j := i + 1 to |segments|
        invariant forall b :: i < b < j && segments[i].asks && segments[b].asks ==> !segments[i].Overlaps(segments[b])
      {
        if segments[i].asks && segments[j].asks && segments[i].Overlaps(segments[j]) {
          return Some(TwoQuestionsOverlap);
        }
      }
    }
    return None;
  }

  /** At no instant two segments ask. */
  ghost predicate OneQuestionAtATime(segments: seq<Segment>) {
    forall now: int, i, j :: 0 <= i < j < |segments| && segments[i].asks && segments[j].asks ==>
      !(segments[i].ActiveAt(now) && segments[j].ActiveAt(now))
  }

  /** What the constructor checks makes one question at a time; between segments that
      last, it is exactly that. */
  lemma QuestionsApartMeansOneAtATime(segments: seq<Segment>)
    ensures QuestionsApart(segments) ==> OneQuestionAtATime(segments)
    ensures (forall i :: 0 <= i < |segments| && segments[i].asks ==> segments[i].validFrom < segments[i].validUntil) ==>
              (QuestionsApart(segments) <==> OneQuestionAtATime(segments))
  {
    if (forall i :: 0 <= i < |segments| && segments[i].asks ==> segments[i].validFrom < segments[i].validUntil)
       && OneQuestionAtATime(segments) {
      forall i, j | 0 <= i < j < |segments| && segments[i].asks && segments[j].asks
        ensures !segments[i].Overlaps(segments[j])
      {
        var later := if segments[i].validFrom < segments[j].validFrom then segments[j].validFrom else segments[i].validFrom;
        assert !(segments[i].ActiveAt(later) && segments[j].ActiveAt(later));
      }
    }
  }

  // -------------------------------------------------------------------------
  // Ordered dictionaries of bounded size
  // -------------------------------------------------------------------------

  /** An `OrderedDict`, the oldest entry first. */
  type Recent<K, V> = seq<(K, V)>

  function Find<K(==), V>(r: Recent<K, V>, k: K): Option<V> {
    if r == [] then None else if r[0].0 == k then Some(r[0].1) else Find(r[1..], k)
  }

  function Without<K(==), V>(r: Recent<K, V>, k: K): Recent<K, V> {
    if r == [] then [] else (if r[0].0 == k then [] else [r[0]]) + Without(r[1..], k)
  }

  /** Set, moved to the end, with the oldest entries dropped above the limit. */
  function Put<K(==), V>(r: Recent<K, V>, k: K, v: V, limit: nat): Recent<K, V> {
    Last(Without(r, k) + [(k, v)], limit)
  }

  /** Dropping the oldest entry of too many does not change which are the last ones. */
  lemma LastOfRest<T>(s: seq<T>, limit: nat)
    requires |s| > limit
    ensures Last(s[1..], limit) == Last(s, limit)
  {
  }

  predicate Unique<K(==), V>(r: Recent<K, V>) {
    forall i, j :: 0 <= i < j < |r| ==> r[i].0 != r[j].0
  }

  lemma {:induction false} WithoutKeeps<K, V>(r: Recent<K, V>, k: K)
    requires Unique(r)
    ensures Unique(Without(r, k)) && |Without(r, k)| <= |r|
    ensures forall i :: 0 <= i < |Without(r, k)| ==> Without(r, k)[i].0 != k && Without(r, k)[i] in r
  {
    if r != [] {
      WithoutKeeps(r[1..], k);
      var rest := Without(r[1..], k);
      forall i | 0 <= i < |rest|
        ensures rest[i].0 != r[0].0 && rest[i] in r
      {
        assert rest[i] in r[1..];
        var j :| 0 <= j < |r[1..]| && r[1..][j] == rest[i];
        assert r[j + 1] == rest[i];
      }
    }
  }

  lemma {:induction false} FindMeans<K, V>(r: Recent<K, V>, k: K)
    requires Unique(r)
    ensures Find(r, k).Some? ==> (k, Find(r, k).value) in r
    ensures forall v :: (k, v) in r ==> Find(r, k) == Some(v)
  {
    if r != [] {
      FindMeans(r[1..], k);
      assert forall p :: p in r <==> p == r[0] || p in r[1..];
      forall v | (k, v) in r[1..]
        ensures r[0].0 != k
      {
        var j :| 0 <= j < |r[1..]| && r[1..][j] == (k, v);
        assert r[j + 1].0 == k;
      }
    }
  }

  /** What is in the dictionary afterwards: the new entry, and of the others what was. */
  lemma PutKeeps<K, V>(r: Recent<K, V>, k: K, v: V, limit: nat)
    requires Unique(r) && limit >= 1
    ensures Unique(Put(r, k, v, limit)) && |Put(r, k, v, limit)| <= limit
    ensures forall p :: p in Put(r, k, v, limit) ==> p == (k, v) || (p in r && p.0 != k)
    ensures (k, v) in Put(r, k, v, limit)
  {
    WithoutKeeps(r, k);
    var all := Without(r, k) + [(k, v)];
    var kept := Last(all, limit);
    assert kept[|kept| - 1] == (k, v);
    forall p | p in kept
      ensures p == (k, v) || (p in r && p.0 != k)
    {
      assert p in all;
    }
  }

  // -------------------------------------------------------------------------
  // State
  // -------------------------------------------------------------------------

  datatype Answer = Yes | No

  /** A conversation and the key of a segment. */
  datatype Pair = Pair(conversation: int, key: string)

  /** What the database does with a second answer for the same pair. */
  datatype Policy = KeepFirst | KeepLast

  /** The two caches and what the database has stored. */
  datatype State = State(
    entered: Recent<int, seq<string>>,
    answered: Recent<Pair, Answer>,
    stored: map<Pair, Answer>)

  function Remember(s: State, pair: Pair, answer: Answer, limit: nat): State {
    s.(answered := Put(s.answered, pair, answer, limit))
  }

  function LabelsOf(s: State, conversation: int): seq<string> {
    match Find(s.entered, conversation)
    case None => []
    case Some(labels) => labels
  }

  /** `_enter` */
  function Enter(s: State, conversation: int, tag: string, limit: nat): State {
    var current := LabelsOf(s, conversation);
    s.(entered := Put(s.entered, conversation, if tag in current then current else current + [tag], limit))
  }

  /** `move_to_end` of a conversation that is remembered. */
  function Touch(s: State, conversation: int, limit: nat): State {
    match Find(s.entered, conversation)
    case None => s
    case Some(labels) => if labels == [] then s else s.(entered := Put(s.entered, conversation, labels, limit))
  }

  /** What always holds: the caches are dictionaries within their size, and only answers
      of pairs that the database has are remembered. */
  ghost predicate Inv(s: State, limit: nat) {
    && Unique(s.entered) && |s.entered| <= limit
    && Unique(s.answered) && |s.answered| <= limit
    && forall p :: p in s.answered ==> p.0 in s.stored
  }

  /** Every remembered answer is the stored one. */
  ghost predicate CachesAgree(s: State) {
    forall p :: p in s.answered ==> p.0 in s.stored && s.stored[p.0] == p.1
  }

  // -------------------------------------------------------------------------
  // Who opened the conversation
  // -------------------------------------------------------------------------

  /** A message that says nothing about who opened the conversation. */
  predicate Passed(m: Message, confirmation: string) {
    m.isPrivate != Some(false) || m.kind == Some(ACTIVITY) || (m.content == confirmation && m.kind == Some(OUTGOING))
  }

  predicate IsReset(m: Message, command: string) {
    m.kind == Some(INCOMING) && m.content == command
  }

  /** The first message that counts, after the last reset, is of the person. */
  ghost predicate PersonOpened(history: History, command: string, confirmation: string) {
    exists i :: 0 <= i < |history|
      && (forall j :: i <= j < |history| ==> !IsReset(history[j], command))
      && history[i].kind == Some(INCOMING) && history[i].sender == Contact && !Passed(history[i], confirmation)
      && FirstCounted(history, i, command, confirmation)
  }

  /** Back from `i`, only messages that are passed, up to a reset or the beginning. */
  ghost predicate FirstCounted(history: History, i: nat, command: string, confirmation: string)
    requires i < |history|
  {
    exists start :: 0 <= start <= i
      && AfterReset(history, start, command)
      && forall j :: start <= j < i ==> Passed(history[j], confirmation)
  }

  /** A reset ends there, or the history begins. */
  predicate AfterReset(history: History, start: nat, command: string)
    requires start <= |history|
  {
    start == 0 || IsReset(history[start - 1], command)
  }

  method OpenedByThePerson(history: History, command: string, confirmation: string) returns (r: bool)
    ensures r <==> PersonOpened(history, command, confirmation)
  {
    var start := 0;
    for i := 0 to |history|
      invariant 0 <= start <= i
      invariant AfterReset(history, start, command)
      invariant forall j :: start <= j < i ==> !IsReset(history[j], command)
    {
      if IsReset(history[i], command) {
        start := i + 1;
      }
    }
    var i := start;
    while i < |history| && Passed(history[i], confirmation)
      invariant start <= i <= |history|
      invariant forall j :: start <= j < i ==> Passed(history[j], confirmation)
    {
      i := i + 1;
    }
    FirstDecides(history, start, i, command, confirmation);
    return i < |history| && history[i].kind == Some(INCOMING) && history[i].sender == Contact;
  }

  /** Only the first message that is not passed, after the last reset, can decide. */
  lemma FirstDecides(history: History, start: nat, i: nat, command: string, confirmation: string)
    requires start <= i <= |history| && AfterReset(history, start, command)
    requires forall j :: start <= j < |history| ==> !IsReset(history[j], command)
    requires forall j :: start <= j < i ==> Passed(history[j], confirmation)
    requires i < |history| ==> !Passed(history[i], confirmation)
    ensures PersonOpened(history, command, confirmation) <==>
              i < |history| && history[i].kind == Some(INCOMING) && history[i].sender == Contact
  {
    forall k | 0 <= k < |history| && FirstCounted(history, k, command, confirmation)
               && (forall j :: k <= j < |history| ==> !IsReset(history[j], command)) && !Passed(history[k], confirmation)
      ensures k == i
    {
      var other :| 0 <= other <= k && AfterReset(history, other, command)
        && forall j :: other <= j < k ==> Passed(history[j], confirmation);
      OnlyOneFirst(history, start, i, other, k, command, confirmation);
    }
    if i < |history| {
      assert FirstCounted(history, i, command, confirmation);
    }
  }

  lemma OnlyOneFirst(history: History, start: nat, i: nat, other: nat, k: nat, command: string, confirmation: string)
    requires start <= i <= |history| && other <= k < |history|
    requires AfterReset(history, start, command) && AfterReset(history, other, command)
    requires forall j :: start <= j < |history| ==> !IsReset(history[j], command)
    requires forall j :: k <= j < |history| ==> !IsReset(history[j], command)
    requires forall j :: start <= j < i ==> Passed(history[j], confirmation)
    requires forall j :: other <= j < k ==> Passed(history[j], confirmation)
    requires i < |history| ==> !Passed(history[i], confirmation)
    requires !Passed(history[k], confirmation)
    ensures k == i
  {
    assert start > 0 ==> IsReset(history[start - 1], command);
    assert other > 0 ==> IsReset(history[other - 1], command);
  }

  // -------------------------------------------------------------------------
  // A turn
  // -------------------------------------------------------------------------

  /** A message of the normalized history of a turn. */
  datatype Prompt = Prompt(ref: string, ofProspect: bool, text: string, createdAt: Option<int>)

  /** What a turn is called with, and how the world answers during it: whether the
      database can be read and for which labels the macro fails with an exception. */
  datatype Call = Call(
    conversation: int,
    history: History,
    complete: bool,
    messages: seq<Prompt>,
    batch: set<string>,
    labels: set<string>,
    now: int,
    readFails: bool,
    macroFails: set<string>)

  /** What the entry adds to a turn; `pending` is the segment whose answer is accepted. */
  datatype Turn = Turn(labels: seq<string>, notice: Option<Segment>, pending: Option<string>)

  const NO_ENTRY := Turn([], None, None)

  /** The instance: its segments, what it remembers and the texts it is configured with.
      `mentions` is the search of a keyword in a text. */
  datatype Setup = Setup(
    segments: seq<Segment>, remembered: nat, command: string, confirmation: string, mentions: (string, string) -> bool)
  {
    predicate Valid() {
      segments != [] && remembered >= 1 && QuestionsApart(segments)
    }
  }

  function FirstProspect(messages: seq<Prompt>): Option<Prompt> {
    if messages == [] then None else if messages[0].ofProspect then Some(messages[0]) else FirstProspect(messages[1..])
  }

  predicate NamedIn(setup: Setup, segment: Segment, text: string) {
    exists i :: 0 <= i < |segment.keywords| && setup.mentions(text, segment.keywords[i])
  }

  /** What a pass over the segments leaves: the state, the labels present and added, and
      whether a macro failed on the way. */
  datatype Pass = Pass(state: State, present: set<string>, added: seq<string>, failed: bool)

  /** The labels of the segments named in the first message. */
  function KeywordPass(setup: Setup, call: Call, text: string, active: seq<Segment>, before: Pass): Pass {
    if active == [] || before.failed then before
    else
      var segment := active[0];
      if segment.tag in before.present || !NamedIn(setup, segment, text) then
        KeywordPass(setup, call, text, active[1..], before)
      else if segment.tag in call.macroFails then before.(failed := true)
      else
        KeywordPass(setup, call, text, active[1..],
                    Pass(Enter(before.state, call.conversation, segment.tag, setup.remembered),
                         before.present + {segment.tag}, before.added + [segment.tag], false))
  }

  datatype Known = Unreadable | Nothing | Given(answer: Answer)

  /** `_known_answer`: from the memory, or else from the database. */
  function KnownAnswer(s: State, pair: Pair, readFails: bool, limit: nat): (Known, State) {
    var cached := Find(s.answered, pair);
    if cached.Some? then (Given(cached.value), s)
    else if readFails then (Unreadable, s)
    else if pair in s.stored then (Given(s.stored[pair]), Remember(s, pair, s.stored[pair], limit))
    else (Nothing, s)
  }

  /** The labels that the entry put before and the webhook does not bring yet. */
  function NotYetIn(remembered: seq<string>, labels: set<string>): seq<string> {
    if remembered == [] then []
    else (if remembered[0] in labels then [] else [remembered[0]]) + NotYetIn(remembered[1..], labels)
  }

  /** The question is for this conversation: it is not of the segment already, the
      person opened it, and after the campaign began. */
  ghost predicate MayAsk(setup: Setup, call: Call, question: Segment, present: set<string>) {
    var first := FirstProspect(call.messages);
    && question.tag !in present && first.Some?
    && PersonOpened(call.history, setup.command, setup.confirmation)
    && first.value.createdAt.Some? && first.value.createdAt.value >= question.validFrom
  }

  /** The second half of a turn: the question, or what its answer says. */
  ghost function Ask(setup: Setup, call: Call, pass: Pass): (Turn, State) {
    var question := FirstQuestion(ActiveSegments(setup.segments, call.now));
    if question.None? || !MayAsk(setup, call, question.value, pass.present) then (Turn(pass.added, None, None), pass.state)
    else
      var segment := question.value;
      var (known, s) := KnownAnswer(pass.state, Pair(call.conversation, segment.key), call.readFails, setup.remembered);
      match known
      case Nothing => (Turn(pass.added, Some(segment), Some(segment.key)), s)
      case Unreadable => (Turn(pass.added, None, None), s)
      case Given(No) => (Turn(pass.added, None, None), s)
      case Given(Yes) =>
        if segment.tag in call.macroFails then (NO_ENTRY, s)
        else (Turn(pass.added + [segment.tag], None, None), Enter(s, call.conversation, segment.tag, setup.remembered))
  }

  /** The pass that a turn starts with: what was remembered of the conversation. */
  function FirstPass(setup: Setup, call: Call, s: State): Pass {
    var remembered := LabelsOf(s, call.conversation);
    Pass(Touch(s, call.conversation, setup.remembered), call.labels + (set l | l in remembered),
         NotYetIn(remembered, call.labels), false)
  }

  /** The keyword counts only when the first message of the person is of this turn. */
  function AfterKeywords(setup: Setup, call: Call, s: State): Pass {
    var first := FirstProspect(call.messages);
    var start := FirstPass(setup, call, s);
    if first.Some? && first.value.ref in call.batch then
      KeywordPass(setup, call, first.value.text, ActiveSegments(setup.segments, call.now), start)
    else start
  }

  /** `turn` */
  ghost function TakeTurn(setup: Setup, call: Call, s: State): (Turn, State) {
    if !call.complete || ActiveSegments(setup.segments, call.now) == [] then (NO_ENTRY, s)
    else
      var pass := AfterKeywords(setup, call, s);
      if pass.failed then (NO_ENTRY, pass.state) else Ask(setup, call, pass)
  }

  /** How the recording of an answer ends: it may fail after it was stored. */
  datatype Recording = Stores | FailsBefore | FailsAfter

  /** The database after an answer reaches it. */
  function Record(stored: map<Pair, Answer>, pair: Pair, answer: Answer, policy: Policy): map<Pair, Answer> {
    if pair in stored && policy == KeepFirst then stored else stored[pair := answer]
  }

  /** `settle` of a turn that carried the notice. A macro that fails comes before the label. */
  function Settle(
      setup: Setup, s: State, pair: Pair, tag: string, answer: Answer, policy: Policy, recording: Recording, macroFails: bool): State {
    var recorded := if recording == FailsBefore then s else s.(stored := Record(s.stored, pair, answer, policy));
    var remembered := if recording == Stores then Remember(recorded, pair, answer, setup.remembered) else recorded;
    if answer == Yes && !macroFails then Enter(remembered, pair.conversation, tag, setup.remembered) else remembered
  }

  /** How `settle` ends: nothing to settle, the answer, or an exception of the macro. */
  datatype Settled = Unsettled | Recorded(answer: Answer) | Raised

  // -------------------------------------------------------------------------
  // What every operation keeps
  // -------------------------------------------------------------------------

  lemma EnterKeepsInv(s: State, conversation: int, tag: string, limit: nat)
    requires limit >= 1 && Inv(s, limit)
    ensures Inv(Enter(s, conversation, tag, limit), limit)
    ensures Enter(s, conversation, tag, limit) == s.(entered := Enter(s, conversation, tag, limit).entered)
  {
    var current := LabelsOf(s, conversation);
    PutKeeps(s.entered, conversation, if tag in current then current else current + [tag], limit);
  }

  lemma RememberKeepsInv(s: State, pair: Pair, answer: Answer, limit: nat)
    requires limit >= 1 && Inv(s, limit) && pair in s.stored
    ensures Inv(Remember(s, pair, answer, limit), limit)
    ensures CachesAgree(s) && s.stored[pair] == answer ==> CachesAgree(Remember(s, pair, answer, limit))
    ensures CachesAgree(Remember(s, pair, answer, limit)) ==> s.stored[pair] == answer
  {
    PutKeeps(s.answered, pair, answer, limit);
  }

  /** Nothing of the answers changes in the first half of a turn. */
  lemma {:induction false} KeywordPassKeeps(setup: Setup, call: Call, text: string, active: seq<Segment>, before: Pass)
    requires setup.Valid() && Inv(before.state, setup.remembered)
    ensures var after := KeywordPass(setup, call, text, active, before).state;
            Inv(after, setup.remembered) && after == before.state.(entered := after.entered)
  {
    if active != [] && !before.failed {
      var segment := active[0];
      if segment.tag in before.present || !NamedIn(setup, segment, text) {
        KeywordPassKeeps(setup, call, text, active[1..], before);
      } else if segment.tag !in call.macroFails {
        EnterKeepsInv(before.state, call.conversation, segment.tag, setup.remembered);
        KeywordPassKeeps(setup, call, text, active[1..],
                         Pass(Enter(before.state, call.conversation, segment.tag, setup.remembered),
                              before.present + {segment.tag}, before.added + [segment.tag], false));
      }
    }
  }

  lemma AfterKeywordsKeeps(setup: Setup, call: Call, s: State)
    requires setup.Valid() && Inv(s, setup.remembered)
    ensures var after := AfterKeywords(setup, call, s).state;
            Inv(after, setup.remembered) && after == s.(entered := after.entered)
  {
    var start := FirstPass(setup, call, s);
    if Find(s.entered, call.conversation).Some? {
      PutKeeps(s.entered, call.conversation, Find(s.entered, call.conversation).value, setup.remembered);
    }
    var first := FirstProspect(call.messages);
    if first.Some? {
      KeywordPassKeeps(setup, call, first.value.text, ActiveSegments(setup.segments, call.now), start);
    }
  }

  lemma {:induction false} FirstQuestionAsks(segments: seq<Segment>)
    ensures FirstQuestion(segments).Some? ==> FirstQuestion(segments).value.asks && FirstQuestion(segments).value in segments
  {
    if segments != [] {
      FirstQuestionAsks(segments[1..]);
    }
  }

  /** What a turn keeps, and when it asks. */
  ghost predicate TurnIsSafe(setup: Setup, call: Call, s: State, turn: Turn, after: State) {
    && Inv(after, setup.remembered) && after.stored == s.stored
    && (CachesAgree(s) ==> CachesAgree(after))
    && (turn.pending.Some? <==> turn.notice.Some?)
    && (turn.notice.Some? ==>
          && turn.pending == Some(turn.notice.value.key) && turn.notice.value.asks && !call.readFails
          && Pair(call.conversation, turn.notice.value.key) !in s.stored)
  }

  lemma AskKeeps(setup: Setup, call: Call, pass: Pass)
    requires setup.Valid() && Inv(pass.state, setup.remembered)
    ensures var (turn, after) := Ask(setup, call, pass); TurnIsSafe(setup, call, pass.state, turn, after)
  {
    var question := FirstQuestion(ActiveSegments(setup.segments, call.now));
    FirstQuestionAsks(ActiveSegments(setup.segments, call.now));
    if question.Some? {
      var pair := Pair(call.conversation, question.value.key);
      KnownAnswerKeeps(pass.state, pair, call.readFails, setup.remembered);
      var (known, next) := KnownAnswer(pass.state, pair, call.readFails, setup.remembered);
      EnterKeepsInv(next, call.conversation, question.value.tag, setup.remembered);
    }
  }

  /** A turn keeps the invariant, writes nothing to the database, leaves the caches in
      agreement when they were, and carries the question of a segment only when the
      database was read and had no answer for it. */
  lemma TurnKeeps(setup: Setup, call: Call, s: State)
    requires setup.Valid() && Inv(s, setup.remembered)
    ensures var (turn, after) := TakeTurn(setup, call, s); TurnIsSafe(setup, call, s, turn, after)
  {
    AfterKeywordsKeeps(setup, call, s);
    AskKeeps(setup, call, AfterKeywords(setup, call, s));
  }

  lemma KnownAnswerKeeps(s: State, pair: Pair, readFails: bool, limit: nat)
    requires limit >= 1 && Inv(s, limit)
    ensures var (known, after) := KnownAnswer(s, pair, readFails, limit);
            && Inv(after, limit) && after == s.(answered := after.answered)
            && (CachesAgree(s) ==> CachesAgree(after))
            && (known == Nothing <==> pair !in s.stored && !readFails)
            && (CachesAgree(s) && known.Given? ==> pair in s.stored && known.answer == s.stored[pair])
  {
    FindMeans(s.answered, pair);
    if Find(s.answered, pair).None? && !readFails && pair in s.stored {
      RememberKeepsInv(s, pair, s.stored[pair], limit);
    }
  }

  /** When the settling of an answer leaves the caches in agreement with the database:
      not when the database kept another answer than the one that is remembered, nor
      when it took a new one and reported a failure over an older one remembered. */
  predicate SettlesInAgreement(s: State, pair: Pair, answer: Answer, policy: Policy, recording: Recording) {
    match recording
    case Stores => policy == KeepLast || pair !in s.stored || s.stored[pair] == answer
    case FailsBefore => true
    case FailsAfter => policy == KeepFirst || Find(s.answered, pair).None? || Find(s.answered, pair) == Some(answer)
  }

  lemma SettleKeeps(
      setup: Setup, s: State, pair: Pair, tag: string, answer: Answer, policy: Policy, recording: Recording, macroFails: bool)
    requires setup.Valid() && Inv(s, setup.remembered)
    ensures var after := Settle(setup, s, pair, tag, answer, policy, recording, macroFails);
            Inv(after, setup.remembered) && s.stored.Keys <= after.stored.Keys
    ensures recording != FailsBefore ==> pair in Settle(setup, s, pair, tag, answer, policy, recording, macroFails).stored
    ensures CachesAgree(s) ==>
              (CachesAgree(Settle(setup, s, pair, tag, answer, policy, recording, macroFails))
               <==> SettlesInAgreement(s, pair, answer, policy, recording))
  {
    var recorded := if recording == FailsBefore then s else s.(stored := Record(s.stored, pair, answer, policy));
    FindMeans(s.answered, pair);
    if recording == Stores {
      RememberKeepsInv(recorded, pair, answer, setup.remembered);
      AgreeAfterStore(setup, s, pair, answer, policy);
      EnterKeepsInv(Remember(recorded, pair, answer, setup.remembered), pair.conversation, tag, setup.remembered);
    } else {
      if recording == FailsAfter && CachesAgree(s) && policy == KeepLast && Find(s.answered, pair).Some? {
        assert (pair, Find(s.answered, pair).value) in recorded.answered;
      }
      EnterKeepsInv(recorded, pair.conversation, tag, setup.remembered);
    }
  }

  lemma AgreeAfterStore(setup: Setup, s: State, pair: Pair, answer: Answer, policy: Policy)
    requires setup.Valid() && Inv(s, setup.remembered)
    ensures var after := Remember(s.(stored := Record(s.stored, pair, answer, policy)), pair, answer, setup.remembered);
            CachesAgree(s) ==> (CachesAgree(after) <==> SettlesInAgreement(s, pair, answer, policy, Stores))
  {
    PutKeeps(s.answered, pair, answer, setup.remembered);
    var after := Remember(s.(stored := Record(s.stored, pair, answer, policy)), pair, answer, setup.remembered);
    assert (pair, answer) in after.answered;
    assert forall p :: p in after.answered ==> p == (pair, answer) || (p in s.answered && p.0 != pair);
  }

  // -------------------------------------------------------------------------
  // Runs
  // -------------------------------------------------------------------------

  /** One thing that happens: a turn, the settling of an answer, or another process that records one. */
  datatype Event =
    | Turns(call: Call)
    | Settles(pair: Pair, tag: string, answer: Answer, recording: Recording, macroFails: bool)
    | Elsewhere(pair: Pair, answer: Answer)

  ghost function Next(setup: Setup, policy: Policy, s: State, event: Event): State {
    match event
    case Turns(call) => TakeTurn(setup, call, s).1
    case Settles(pair, tag, answer, recording, macroFails) => Settle(setup, s, pair, tag, answer, policy, recording, macroFails)
    case Elsewhere(pair, answer) => s.(stored := Record(s.stored, pair, answer, policy))
  }

  ghost function Run(setup: Setup, policy: Policy, s: State, events: seq<Event>): State
    decreases |events|
  {
    if events == [] then s else Run(setup, policy, Next(setup, policy, s, events[0]), events[1..])
  }

  lemma NextKeeps(setup: Setup, policy: Policy, s: State, event: Event)
    requires setup.Valid() && Inv(s, setup.remembered)
    ensures Inv(Next(setup, policy, s, event), setup.remembered)
    ensures s.stored.Keys <= Next(setup, policy, s, event).stored.Keys
  {
    match event
    case Turns(call) => TurnKeeps(setup, call, s);
    case Settles(pair, tag, answer, recording, macroFails) => SettleKeeps(setup, s, pair, tag, answer, policy, recording, macroFails);
    case Elsewhere(_, _) =>
  }

  lemma {:induction false} RunKeeps(setup: Setup, policy: Policy, s: State, events: seq<Event>)
    requires setup.Valid() && Inv(s, setup.remembered)
    ensures Inv(Run(setup, policy, s, events), setup.remembered)
    ensures s.stored.Keys <= Run(setup, policy, s, events).stored.Keys
    decreases |events|
  {
    if events != [] {
      NextKeeps(setup, policy, s, events[0]);
      RunKeeps(setup, policy, Next(setup, policy, s, events[0]), events[1..]);
    }
  }

  /** Once an answer is stored, whatever happens next, no turn asks again: over every
      run of turns, settlings and records of others, with failures anywhere. */
  lemma NeverAskedAgain(setup: Setup, policy: Policy, s: State, events: seq<Event>, call: Call, key: string)
    requires setup.Valid() && Inv(s, setup.remembered) && Pair(call.conversation, key) in s.stored
    ensures var turn := TakeTurn(setup, call, Run(setup, policy, s, events)).0;
            turn.notice.None? || turn.notice.value.key != key
  {
    RunKeeps(setup, policy, s, events);
    TurnKeeps(setup, call, Run(setup, policy, s, events));
  }

  // When the caches agree with the database, over a run.

  /** When an event leaves the caches in agreement: a turn always does; a settling as
      said above; another process does when the database keeps the first answer, or
      nothing is remembered of that pair, or the same answer is. */
  predicate EventAgrees(policy: Policy, s: State, event: Event) {
    match event
    case Turns(_) => true
    case Settles(pair, _, answer, recording, _) => SettlesInAgreement(s, pair, answer, policy, recording)
    case Elsewhere(pair, answer) =>
      policy == KeepFirst || Find(s.answered, pair).None? || Find(s.answered, pair) == Some(answer)
  }

  lemma NextAgrees(setup: Setup, policy: Policy, s: State, event: Event)
    requires setup.Valid() && Inv(s, setup.remembered) && CachesAgree(s)
    ensures CachesAgree(Next(setup, policy, s, event)) <==> EventAgrees(policy, s, event)
  {
    match event
    case Turns(call) => TurnKeeps(setup, call, s);
    case Settles(pair, tag, answer, recording, macroFails) => SettleKeeps(setup, s, pair, tag, answer, policy, recording, macroFails);
    case Elsewhere(pair, answer) =>
      FindMeans(s.answered, pair);
      if policy == KeepLast && Find(s.answered, pair).Some? {
        assert (pair, Find(s.answered, pair).value) in s.answered;
      }
  }

  /** The caches agree with the database at every point of the run. */
  ghost predicate AgreesThroughout(setup: Setup, policy: Policy, s: State, events: seq<Event>)
    decreases |events|
  {
    CachesAgree(s) && (events != [] ==> AgreesThroughout(setup, policy, Next(setup, policy, s, events[0]), events[1..]))
  }

  /** Every event of the run agrees where it happens. */
  ghost predicate EventsAgree(setup: Setup, policy: Policy, s: State, events: seq<Event>)
    decreases |events|
  {
    events != [] ==>
      EventAgrees(policy, s, events[0]) && EventsAgree(setup, policy, Next(setup, policy, s, events[0]), events[1..])
  }

  /** Over every run, with evictions and failures anywhere: the caches agree with the
      database throughout exactly when each event agrees where it happens. */
  lemma {:induction false} RunAgrees(setup: Setup, policy: Policy, s: State, events: seq<Event>)
    requires setup.Valid() && Inv(s, setup.remembered) && CachesAgree(s)
    ensures AgreesThroughout(setup, policy, s, events) <==> EventsAgree(setup, policy, s, events)
    decreases |events|
  {
    if events != [] {
      NextAgrees(setup, policy, s, events[0]);
      NextKeeps(setup, policy, s, events[0]);
      if EventAgrees(policy, s, events[0]) {
        RunAgrees(setup, policy, Next(setup, policy, s, events[0]), events[1..]);
      }
    }
  }

  /** With a database that keeps the last answer, one process whose recordings do not fail
      after they stored is always in agreement. */
  lemma {:induction false} KeepingTheLastAgrees(setup: Setup, s: State, events: seq<Event>)
    requires setup.Valid() && Inv(s, setup.remembered) && CachesAgree(s)
    requires forall e :: e in events ==> e.Turns? || (e.Settles? && e.recording != FailsAfter)
    ensures AgreesThroughout(setup, KeepLast, s, events)
    decreases |events|
  {
    if events != [] {
      assert events[0] in events;
      NextAgrees(setup, KeepLast, s, events[0]);
      NextKeeps(setup, KeepLast, s, events[0]);
      KeepingTheLastAgrees(setup, Next(setup, KeepLast, s, events[0]), events[1..]);
    }
  }

  // With the database as it is, which keeps the first answer, on the events alone.

  /** The answer that the event brings to the database for a pair, if it does. */
  function Brings(event: Event, pair: Pair): Option<Answer> {
    match event
    case Turns(_) => None
    case Settles(p, _, answer, recording, _) => if p == pair && recording != FailsBefore then Some(answer) else None
    case Elsewhere(p, answer) => if p == pair then Some(answer) else None
  }

  /** The first answer for a pair: the stored one, or else the first that an event brings. */
  function FirstRecorded(stored: map<Pair, Answer>, events: seq<Event>, pair: Pair): Option<Answer> {
    if pair in stored then Some(stored[pair])
    else if events == [] then None
    else if Brings(events[0], pair).Some? then Brings(events[0], pair)
    else FirstRecorded(stored, events[1..], pair)
  }

  /** Not a settling whose recording is reported, or one that carries the first answer of its pair. */
  predicate CarriesTheFirst(stored: map<Pair, Answer>, events: seq<Event>, event: Event) {
    event.Settles? && event.recording == Stores ==> FirstRecorded(stored, events, event.pair) == Some(event.answer)
  }

  ghost predicate ReportedAreFirst(stored: map<Pair, Answer>, events: seq<Event>) {
    forall e :: e in events ==> CarriesTheFirst(stored, events, e)
  }

  lemma FirstStays(setup: Setup, s: State, event: Event, events: seq<Event>, pair: Pair)
    requires setup.Valid() && Inv(s, setup.remembered)
    ensures FirstRecorded(Next(setup, KeepFirst, s, event).stored, events, pair)
            == FirstRecorded(s.stored, [event] + events, pair)
  {
    assert ([event] + events)[1..] == events;
    NextStores(setup, s, event);
    if pair !in s.stored && Brings(event, pair).None? {
      SameFirst(s.stored, Next(setup, KeepFirst, s, event).stored, events, pair);
    }
  }

  /** What an event does to the table. */
  lemma NextStores(setup: Setup, s: State, event: Event)
    requires setup.Valid() && Inv(s, setup.remembered)
    ensures forall pair :: pair in Next(setup, KeepFirst, s, event).stored <==> pair in s.stored || Brings(event, pair).Some?
    ensures forall pair :: pair in Next(setup, KeepFirst, s, event).stored ==>
              Some(Next(setup, KeepFirst, s, event).stored[pair])
              == if pair in s.stored then Some(s.stored[pair]) else Brings(event, pair)
  {
    match event
    case Turns(call) => TurnKeeps(setup, call, s);
    case Settles(pair, tag, answer, recording, macroFails) => SettleStores(setup, s, pair, tag, answer, KeepFirst, recording, macroFails);
    case Elsewhere(_, _) =>
  }

  lemma {:induction false} SameFirst(a: map<Pair, Answer>, b: map<Pair, Answer>, events: seq<Event>, pair: Pair)
    requires pair !in a && pair !in b
    ensures FirstRecorded(a, events, pair) == FirstRecorded(b, events, pair)
  {
    if events != [] {
      SameFirst(a, b, events[1..], pair);
    }
  }

  /** The condition over a run is that of its first event and of the rest after it. */
  lemma FirstAndRest(setup: Setup, s: State, event: Event, events: seq<Event>)
    requires setup.Valid() && Inv(s, setup.remembered)
    ensures ReportedAreFirst(s.stored, [event] + events) <==>
              EventAgrees(KeepFirst, s, event) && ReportedAreFirst(Next(setup, KeepFirst, s, event).stored, events)
  {
    var all, stored := [event] + events, Next(setup, KeepFirst, s, event).stored;
    assert forall e :: e in all <==> e == event || e in events;
    forall e | e in events
      ensures CarriesTheFirst(s.stored, all, e) <==> CarriesTheFirst(stored, events, e)
    {
      if e.Settles? {
        FirstStays(setup, s, event, events, e.pair);
      }
    }
    assert CarriesTheFirst(s.stored, all, event) <==> EventAgrees(KeepFirst, s, event);
  }

  /** With the database as it is: the caches agree throughout a run exactly when every
      settling whose recording is reported carries the answer that was first recorded for
      its pair, by whoever. */
  lemma {:induction false} KeepingTheFirstAgrees(setup: Setup, s: State, events: seq<Event>)
    requires setup.Valid() && Inv(s, setup.remembered) && CachesAgree(s)
    ensures AgreesThroughout(setup, KeepFirst, s, events) <==> ReportedAreFirst(s.stored, events)
    decreases |events|
  {
    if events != [] {
      assert events == [events[0]] + events[1..];
      NextAgrees(setup, KeepFirst, s, events[0]);
      NextKeeps(setup, KeepFirst, s, events[0]);
      FirstAndRest(setup, s, events[0], events[1..]);
      if EventAgrees(KeepFirst, s, events[0]) {
        KeepingTheFirstAgrees(setup, Next(setup, KeepFirst, s, events[0]), events[1..]);
      }
    }
  }

  /** What the event says of its pair is what `given` says. */
  predicate Says(event: Event, given: Pair -> Answer) {
    match event
    case Turns(_) => true
    case Settles(pair, _, answer, _, _) => answer == given(pair)
    case Elsewhere(pair, answer) => answer == given(pair)
  }

  ghost predicate StoredSay(s: State, given: Pair -> Answer) {
    forall pair :: pair in s.stored ==> s.stored[pair] == given(pair)
  }

  lemma NextSays(setup: Setup, policy: Policy, s: State, event: Event, given: Pair -> Answer)
    requires setup.Valid() && Inv(s, setup.remembered) && CachesAgree(s)
    requires StoredSay(s, given) && Says(event, given)
    ensures EventAgrees(policy, s, event) && StoredSay(Next(setup, policy, s, event), given)
  {
    match event
    case Turns(call) => TurnKeeps(setup, call, s);
    case Settles(pair, tag, answer, recording, macroFails) =>
      RememberedSay(s, pair, given);
      SettleStores(setup, s, pair, tag, answer, policy, recording, macroFails);
    case Elsewhere(pair, _) => RememberedSay(s, pair, given);
  }

  lemma RememberedSay(s: State, pair: Pair, given: Pair -> Answer)
    requires Unique(s.answered) && CachesAgree(s) && StoredSay(s, given)
    ensures Find(s.answered, pair).None? || Find(s.answered, pair) == Some(given(pair))
  {
    FindMeans(s.answered, pair);
  }

  lemma SettleStores(
      setup: Setup, s: State, pair: Pair, tag: string, answer: Answer, policy: Policy, recording: Recording, macroFails: bool)
    ensures Settle(setup, s, pair, tag, answer, policy, recording, macroFails).stored
            == if recording == FailsBefore then s.stored else Record(s.stored, pair, answer, policy)
  {
  }

  /** Where nobody changes an answer, the caches agree throughout: with either kind of
      database, any failures and any other processes. */
  lemma {:induction false} OneAnswerEachAgrees(
      setup: Setup, policy: Policy, s: State, events: seq<Event>, given: Pair -> Answer)
    requires setup.Valid() && Inv(s, setup.remembered) && CachesAgree(s)
    requires StoredSay(s, given)
    requires forall e :: e in events ==> (e.Settles? || e.Elsewhere? ==> e.answer == given(e.pair))
    ensures AgreesThroughout(setup, policy, s, events)
    decreases |events|
  {
    if events != [] {
      assert Says(events[0], given);
      NextSays(setup, policy, s, events[0], given);
      NextAgrees(setup, policy, s, events[0]);
      NextKeeps(setup, policy, s, events[0]);
      OneAnswerEachAgrees(setup, policy, Next(setup, policy, s, events[0]), events[1..], given);
    }
  }

  // Two runs that do not agree.

  /** One segment that asks, and a person who writes without naming it. */
  const EXAMPLE := Segment("campaign", "label", 0, 10, [], true)
  const EXAMPLE_SETUP := Setup([EXAMPLE], 1, "reset", "reset done", (text: string, keyword: string) => false)
  const EXAMPLE_MESSAGE := Message(1, 7, Some(1), Some(false), Some(INCOMING), Contact, "hello", true, None)
  const EXAMPLE_CALL := Call(7, [EXAMPLE_MESSAGE], true, [Prompt("1", true, "hello", Some(1))], {"1"}, {}, 1, false, {})
  const EMPTY := State([], [], map[])

  lemma ExampleAsks()
    ensures EXAMPLE_SETUP.Valid()
    ensures TakeTurn(EXAMPLE_SETUP, EXAMPLE_CALL, EMPTY) == (Turn([], Some(EXAMPLE), Some(EXAMPLE.key)), EMPTY)
  {
    var setup, call := EXAMPLE_SETUP, EXAMPLE_CALL;
    assert ActiveSegments(setup.segments, call.now) == [EXAMPLE] by {
      assert ActiveSegments(setup.segments[1..], call.now) == [];
    }
    assert AfterKeywords(setup, call, EMPTY) == Pass(EMPTY, {}, [], false) by {
      assert KeywordPass(setup, call, "hello", [], Pass(EMPTY, {}, [], false)) == Pass(EMPTY, {}, [], false);
      assert call.labels + (set l | l in LabelsOf(EMPTY, call.conversation)) == {};
    }
    assert PersonOpened(call.history, setup.command, setup.confirmation) by {
      assert call.history[0] == EXAMPLE_MESSAGE;
      assert FirstCounted(call.history, 0, setup.command, setup.confirmation) by {
        assert AfterReset(call.history, 0, setup.command);
      }
    }
  }

  lemma RunFrom(setup: Setup, policy: Policy, s: State, event: Event, events: seq<Event>)
    ensures Run(setup, policy, s, [event] + events) == Run(setup, policy, Next(setup, policy, s, event), events)
  {
    assert ([event] + events)[1..] == events;
  }

  lemma TheQuestionChangesNothing(events: seq<Event>)
    ensures Run(EXAMPLE_SETUP, KeepFirst, EMPTY, [Turns(EXAMPLE_CALL)] + events) == Run(EXAMPLE_SETUP, KeepFirst, EMPTY, events)
  {
    ExampleAsks();
    RunFrom(EXAMPLE_SETUP, KeepFirst, EMPTY, Turns(EXAMPLE_CALL), events);
  }

  lemma TwoAnswersDisagree(pair: Pair)
    ensures !CachesAgree(Run(EXAMPLE_SETUP, KeepFirst, EMPTY,
                             [Settles(pair, EXAMPLE.tag, No, Stores, false), Settles(pair, EXAMPLE.tag, Yes, Stores, false)]))
  {
    var first, second := Settles(pair, EXAMPLE.tag, No, Stores, false), Settles(pair, EXAMPLE.tag, Yes, Stores, false);
    var once := Next(EXAMPLE_SETUP, KeepFirst, EMPTY, first);
    NextAgrees(EXAMPLE_SETUP, KeepFirst, EMPTY, first);
    NextKeeps(EXAMPLE_SETUP, KeepFirst, EMPTY, first);
    NextAgrees(EXAMPLE_SETUP, KeepFirst, once, second);
    assert once.stored[pair] == No;
    assert [first, second] == [first] + [second] && [second] == [second] + [];
    RunFrom(EXAMPLE_SETUP, KeepFirst, EMPTY, first, [second]);
    RunFrom(EXAMPLE_SETUP, KeepFirst, once, second, []);
  }

  /** With the database as it is, which keeps the first answer, two turns that both carried
      the question can leave a remembered answer that is not the stored one. */
  lemma TwoPendingAnswersCanDisagree()
    ensures var pair := Pair(EXAMPLE_CALL.conversation, EXAMPLE.key);
            var events := [Turns(EXAMPLE_CALL), Turns(EXAMPLE_CALL),
                           Settles(pair, EXAMPLE.tag, No, Stores, false), Settles(pair, EXAMPLE.tag, Yes, Stores, false)];
            && EXAMPLE_SETUP.Valid() && Inv(EMPTY, EXAMPLE_SETUP.remembered) && CachesAgree(EMPTY)
            && TakeTurn(EXAMPLE_SETUP, EXAMPLE_CALL, EMPTY).0.notice == Some(EXAMPLE)
            && TakeTurn(EXAMPLE_SETUP, EXAMPLE_CALL, Run(EXAMPLE_SETUP, KeepFirst, EMPTY, events[..1])).0.notice == Some(EXAMPLE)
            && !CachesAgree(Run(EXAMPLE_SETUP, KeepFirst, EMPTY, events))
  {
    var pair := Pair(EXAMPLE_CALL.conversation, EXAMPLE.key);
    var first, second := Settles(pair, EXAMPLE.tag, No, Stores, false), Settles(pair, EXAMPLE.tag, Yes, Stores, false);
    var events := [Turns(EXAMPLE_CALL), Turns(EXAMPLE_CALL), first, second];
    ExampleAsks();
    assert events[..1] == [Turns(EXAMPLE_CALL)] + [];
    TheQuestionChangesNothing([]);
    assert events == [Turns(EXAMPLE_CALL)] + ([Turns(EXAMPLE_CALL)] + [first, second]);
    TheQuestionChangesNothing([Turns(EXAMPLE_CALL)] + [first, second]);
    TheQuestionChangesNothing([first, second]);
    TwoAnswersDisagree(pair);
  }

  /** A database that kept the last answer would disagree after another process records
      one, although nothing is settled here. */
  lemma AnotherProcessCanDisagree(setup: Setup, pair: Pair)
    requires setup.Valid()
    ensures var s := State([], [(pair, Yes)], map[pair := Yes]);
            && Inv(s, setup.remembered) && CachesAgree(s)
            && !CachesAgree(Run(setup, KeepLast, s, [Elsewhere(pair, No)]))
  {
    var s := State([], [(pair, Yes)], map[pair := Yes]);
    NextAgrees(setup, KeepLast, s, Elsewhere(pair, No));
    assert [Elsewhere(pair, No)][1..] == [];
  }

  // -------------------------------------------------------------------------
  // The object
  // -------------------------------------------------------------------------

  /** The table of answers: `record_segment_entry_answer_v1`, `get_segment_entry_answers_v1`. */
  class AnswerTable {
    const policy: Policy
    var stored: map<Pair, Answer>

    constructor (policy: Policy)
      ensures this.policy == policy && stored == map[]
    {
      this.policy := policy;
      stored := map[];
    }

    /** `None` when the read fails. */
    method Get(pair: Pair, fails: bool) returns (r: Option<Option<Answer>>)
      ensures r == if fails then None else Some(if pair in stored then Some(stored[pair]) else None)
    {
      if fails {
        return None;
      }
      return Some(if pair in stored then Some(stored[pair]) else None);
    }

    method RecordAnswer(pair: Pair, answer: Answer, recording: Recording) returns (ok: bool)
      modifies this
      ensures ok <==> recording == Stores
      ensures stored == if recording == FailsBefore then old(stored) else Record(old(stored), pair, answer, policy)
    {
      if recording == FailsBefore {
        return false;
      }
      if !(pair in stored && policy == KeepFirst) {
        stored := stored[pair := answer];
      }
      return recording == Stores;
    }
  }

  class Entry {
    const setup: Setup
    const answers: AnswerTable
    var entered: Recent<int, seq<string>>
    var answered: Recent<Pair, Answer>

    ghost function Now(): State
      reads this, answers
    {
      State(entered, answered, answers.stored)
    }

    ghost predicate Valid()
      reads this, answers
    {
      setup.Valid() && Inv(Now(), setup.remembered)
    }

    constructor (setup: Setup, answers: AnswerTable)
      requires setup.Valid()
      ensures this.setup == setup && this.answers == answers
      ensures Valid() && Now() == State([], [], answers.stored)
    {
      this.setup := setup;
      this.answers := answers;
      entered, answered := [], [];
    }

    /** `_enter`: the oldest conversations are dropped above the limit. */
    method EnterLabel(conversation: int, tag: string)
      requires Valid()
      modifies this
      ensures Valid() && Now() == Enter(old(Now()), conversation, tag, setup.remembered)
    {
      ghost var before := Now();
      EnterKeepsInv(before, conversation, tag, setup.remembered);
      var found := Find(entered, conversation);
      var current := if found.Some? then found.value else [];
      var labels := if tag in current then current else current + [tag];
      entered := Without(entered, conversation) + [(conversation, labels)];
      ghost var all := entered;
      while |entered| > setup.remembered
        invariant Last(entered, setup.remembered) == Last(all, setup.remembered)
        invariant answered == before.answered && answers.stored == before.stored
      {
        LastOfRest(entered, setup.remembered);
        entered := entered[1..];
      }
    }

    /** `_remember_answer` */
    method RememberAnswer(pair: Pair, answer: Answer)
      requires Valid() && pair in answers.stored
      modifies this
      ensures Valid() && Now() == Remember(old(Now()), pair, answer, setup.remembered)
    {
      ghost var before := Now();
      RememberKeepsInv(before, pair, answer, setup.remembered);
      answered := Without(answered, pair) + [(pair, answer)];
      ghost var all := answered;
      while |answered| > setup.remembered
        invariant Last(answered, setup.remembered) == Last(all, setup.remembered)
        invariant entered == before.entered && answers.stored == before.stored
      {
        LastOfRest(answered, setup.remembered);
        answered := answered[1..];
      }
    }

    method ReadAnswer(pair: Pair, readFails: bool) returns (known: Known)
      requires Valid()
      modifies this
      ensures Valid() && (known, Now()) == KnownAnswer(old(Now()), pair, readFails, setup.remembered)
    {
      ghost var before := Now();
      var cached := Find(answered, pair);
      if cached.Some? {
        return Given(cached.value);
      }
      var stored := answers.Get(pair, readFails);
      if stored.None? {
        return Unreadable;
      }
      if stored.value.None? {
        return Nothing;
      }
      RememberAnswer(pair, stored.value.value);
      return Given(stored.value.value);
    }

    /** The loop over the segments of the keyword. A failing macro ends the turn. */
    method LabelByKeyword(call: Call, text: string, active: seq<Segment>, present0: set<string>, added0: seq<string>)
      returns (present: set<string>, added: seq<string>, failed: bool)
      requires Valid()
      modifies this
      ensures Valid()
      ensures Pass(Now(), present, added, failed) == KeywordPass(setup, call, text, active, Pass(old(Now()), present0, added0, false))
    {
      present, added, failed := present0, added0, false;
      ghost var whole := KeywordPass(setup, call, text, active, Pass(Now(), present, added, false));
      for i := 0 to |active|
        invariant Valid() && !failed
        invariant KeywordPass(setup, call, text, active[i..], Pass(Now(), present, added, failed)) == whole
      {
        var segment := active[i];
        assert active[i..][1..] == active[i + 1..];
        if segment.tag in present || !NamedIn(setup, segment, text) {
          continue;
        }
        if segment.tag in call.macroFails {
          failed := true;
          return;
        }
        EnterLabel(call.conversation, segment.tag);
        present, added := present + {segment.tag}, added + [segment.tag];
      }
    }

    /** The question, or what its answer says. */
    method AskOnce(call: Call, present: set<string>, added: seq<string>) returns (turn: Turn)
      requires Valid()
      modifies this
      ensures Valid() && (turn, Now()) == Ask(setup, call, Pass(old(Now()), present, added, false))
    {
      var question := FirstQuestion(ActiveSegments(setup.segments, call.now));
      var first := FirstProspect(call.messages);
      if question.None? || question.value.tag in present || first.None? {
        return Turn(added, None, None);
      }
      var byPerson := OpenedByThePerson(call.history, setup.command, setup.confirmation);
      if !byPerson || first.value.createdAt.None? || first.value.createdAt.value < question.value.validFrom {
        return Turn(added, None, None);
      }
      var known := ReadAnswer(Pair(call.conversation, question.value.key), call.readFails);
      if known == Nothing {
        return Turn(added, question, Some(question.value.key));
      }
      if known == Given(Yes) {
        if question.value.tag in call.macroFails {
          return NO_ENTRY;
        }
        EnterLabel(call.conversation, question.value.tag);
        return Turn(added + [question.value.tag], None, None);
      }
      return Turn(added, None, None);
    }

    /** `turn`: it never fails; what fails inside it gives a turn without entry. */
    method TurnOf(call: Call) returns (turn: Turn)
      requires Valid()
      modifies this
      ensures Valid() && (turn, Now()) == TakeTurn(setup, call, old(Now()))
      ensures turn.notice.Some? ==> Pair(call.conversation, turn.notice.value.key) !in answers.stored
    {
      ghost var before := Now();
      TurnKeeps(setup, call, before);
      var active := ActiveSegments(setup.segments, call.now);
      if !call.complete || active == [] {
        return NO_ENTRY;
      }
      AfterKeywordsKeeps(setup, call, before);
      var found := Find(entered, call.conversation);
      var remembered := if found.Some? then found.value else [];
      if remembered != [] {
        PutKeeps(entered, call.conversation, remembered, setup.remembered);
        entered := Put(entered, call.conversation, remembered, setup.remembered);
      }
      var present, added := call.labels + (set l | l in remembered), NotYetIn(remembered, call.labels);
      assert Pass(Now(), present, added, false) == FirstPass(setup, call, before);
      var first := FirstProspect(call.messages);
      if first.Some? && first.value.ref in call.batch {
        var failed;
        present, added, failed := LabelByKeyword(call, first.value.text, active, present, added);
        if failed {
          return NO_ENTRY;
        }
      }
      turn := AskOnce(call, present, added);
    }

    /** `settle` */
    method SettleAnswer(conversation: int, turn: Turn, answer: Option<Answer>, recording: Recording, macroFails: bool)
      returns (r: Settled)
      requires Valid()
      requires turn.pending.Some? ==> exists i :: 0 <= i < |setup.segments| && setup.segments[i].key == turn.pending.value
      modifies this, answers
      ensures Valid()
      ensures r == if turn.pending.None? || answer.None? then Unsettled
                   else if answer == Some(Yes) && macroFails then Raised
                   else Recorded(answer.value)
      ensures r.Unsettled? ==> Now() == old(Now())
      ensures !r.Unsettled? ==>
                exists segment :: segment in setup.segments && segment.key == turn.pending.value
                  && Now() == Settle(setup, old(Now()), Pair(conversation, segment.key), segment.tag, answer.value,
                                     answers.policy, recording, macroFails)
    {
      if turn.pending.None? || answer.None? {
        return Unsettled;
      }
      var i := 0;
      while setup.segments[i].key != turn.pending.value
        invariant i < |setup.segments|
        invariant exists j :: i <= j < |setup.segments| && setup.segments[j].key == turn.pending.value
        decreases |setup.segments| - i
      {
        i := i + 1;
      }
      var segment := setup.segments[i];
      assert segment in setup.segments;
      var pair := Pair(conversation, segment.key);
      SettleKeeps(setup, Now(), pair, segment.tag, answer.value, answers.policy, recording, macroFails);
      var ok := answers.RecordAnswer(pair, answer.value, recording);
      if ok {
        RememberAnswer(pair, answer.value);
      }
      if answer.value == Yes {
        if macroFails {
          return Raised;
        }
        EnterLabel(conversation, segment.tag);
      }
      return Recorded(answer.value);
    }
  }
}
