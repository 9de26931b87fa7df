/** The two listers over the scan: the monitor of stalled conversations
    (`list_stalled_conversations`) and the reader of recent conversations of several
    states (`list_recent_conversations_with_messages`). */
module ConversationListers {
  import opened Wrappers
  import opened Messages
  import opened MovingListing
  import opened Positions
  import opened ConversationScan
  import opened ScanOrder
  import HistoryReader

  // -------------------------------------------------------------------------
  // Stalled conversations
  // -------------------------------------------------------------------------

  /** `sender` of the conversation's `meta`, when it is an object. */
  datatype Person = Person(blocked: bool)

  datatype Meta = Meta(hasAssignee: bool, sender: Option<Person>)

  /** What is read of one conversation: its details and its last messages. `labels`
      and `meta` are `None` when they are not of the right type. */
  datatype View = View(
    isOpen: bool,
    canReply: bool,
    labels: Option<seq<string>>,
    meta: Option<Meta>,
    messages: History)

  const MARGIN: real := 3600.0
  const MAX_SCAN_PAGES := 20

  /** The parameters of the monitor. `accepts` is the classifier of inbound messages. */
  datatype Monitor = Monitor(
    inbox: int,
    staleAfter: real,
    maxAge: real,
    maxPages: int,
    now: real,
    accepts: (int, Message, View) -> bool)
  {
    predicate Valid() {
      inbox > 0 && staleAfter >= 0.0 && maxAge >= staleAfter && 1 <= maxPages <= MAX_SCAN_PAGES
    }

    function Cut(): real {
      now - maxAge - MARGIN
    }

    predicate InWindow(createdAt: int) {
      staleAfter <= now - createdAt as real <= maxAge
    }
  }

  datatype Candidate = Candidate(conversation: int, message: int, payload: Message)

  predicate Public(m: Message) {
    m.isPrivate == Some(false)
  }

  predicate Talk(m: Message) {
    Public(m) && (m.kind == Some(INCOMING) || m.kind == Some(OUTGOING))
  }

  predicate KnownKind(m: Message) {
    m.kind == Some(INCOMING) || m.kind == Some(OUTGOING) || m.kind == Some(ACTIVITY)
  }

  /** Nobody of the team has the conversation and the person may be answered. */
  predicate Unattended(v: View) {
    && v.isOpen && v.canReply
    && v.labels.Some? && "automation_paused" !in v.labels.value
    && v.meta.Some? && !v.meta.value.hasAssignee
    && v.meta.value.sender.Some? && !v.meta.value.sender.value.blocked
  }

  /** A message of the person, of this conversation, waiting for as long as the monitor looks at. */
  predicate Waits(monitor: Monitor, conversation: int, m: Message) {
    && m.id > 0 && m.conversation == conversation
    && m.createdAt.Some? && m.kind == Some(INCOMING) && m.speaks && m.sender == Contact
    && monitor.InWindow(m.createdAt.value)
  }

  /** The message with the greatest id; the first of them when several have it. */
  method Greatest(messages: History) returns (latest: Message)
    requires messages != []
    ensures latest in messages && forall m :: m in messages ==> m.id <= latest.id
  {
    latest := messages[0];
    for i := 1 to |messages|
      invariant latest in messages && forall k :: 0 <= k < i ==> messages[k].id <= latest.id
    {
      if messages[i].id > latest.id {
        latest := messages[i];
      }
    }
  }

  function Talks(messages: History): History {
    if messages == [] then []
    else if Talk(messages[0]) then [messages[0]] + Talks(messages[1..])
    else Talks(messages[1..])
  }

  lemma {:induction false} TalksKeeps(messages: History)
    ensures forall m :: m in Talks(messages) <==> m in messages && Talk(m)
  {
    if messages != [] {
      TalksKeeps(messages[1..]);
      assert forall m :: m in messages <==> m == messages[0] || m in messages[1..];
    }
  }

  /** A stalled conversation: it is open and can be answered, without a pause, an assignee
      or a blocked contact; all its public messages are of a known kind; and the message
      at place `k`, a public one of the person that says something and has waited for as
      long as the monitor looks at, has no public incoming or outgoing message after it
      and is accepted. */
  ghost predicate StalledAt(monitor: Monitor, conversation: int, v: View, k: nat) {
    && v.isOpen && v.canReply
    && v.labels.Some? && (forall i :: 0 <= i < |v.labels.value| ==> v.labels.value[i] != "automation_paused")
    && v.meta.Some? && !v.meta.value.hasAssignee && v.meta.value.sender == Some(Person(false))
    && (forall m :: m in v.messages && m.isPrivate == Some(false) ==> m.kind in {Some(INCOMING), Some(OUTGOING), Some(ACTIVITY)})
    && k < |v.messages| && IsWaiting(monitor, conversation, v.messages[k])
    && (forall j :: k < j < |v.messages| && v.messages[j].isPrivate == Some(false) ==>
          v.messages[j].kind !in {Some(INCOMING), Some(OUTGOING)})
    && monitor.accepts(conversation, v.messages[k], v)
  }

  ghost predicate IsWaiting(monitor: Monitor, conversation: int, m: Message) {
    && m.isPrivate == Some(false) && m.kind == Some(INCOMING) && m.sender == Contact && m.speaks
    && m.id > 0 && m.conversation == conversation && m.createdAt.Some?
    && monitor.staleAfter <= monitor.now - m.createdAt.value as real <= monitor.maxAge
  }

  /** The candidate of one conversation: exactly when it is stalled, with the message that waits. */
  method StalledCandidate(monitor: Monitor, conversation: int, v: View) returns (r: Option<Candidate>)
    requires Increasing(v.messages)
    ensures r.Some? <==> exists k: nat :: StalledAt(monitor, conversation, v, k)
    ensures forall k: nat :: StalledAt(monitor, conversation, v, k) ==>
              r == Some(Candidate(conversation, v.messages[k].id, v.messages[k]))
  {
    if !Unattended(v) {
      return None;
    }
    if exists i :: 0 <= i < |v.messages| && Public(v.messages[i]) && !KnownKind(v.messages[i]) {
      return None;
    }
    var talks := Talks(v.messages);
    TalksKeeps(v.messages);
    assert forall k: nat :: StalledAt(monitor, conversation, v, k) ==> v.messages[k] in talks;
    if talks == [] {
      return None;
    }
    var latest := Greatest(talks);
    LatestIsTheOne(monitor, conversation, v, talks, latest);
    if !Waits(monitor, conversation, latest) || !monitor.accepts(conversation, latest, v) {
      return None;
    }
    r := Some(Candidate(conversation, latest.id, latest));
  }

  lemma LatestIsTheOne(monitor: Monitor, conversation: int, v: View, talks: History, latest: Message)
    requires Increasing(v.messages) && Unattended(v)
    requires forall m :: m in v.messages && Public(m) ==> KnownKind(m)
    requires forall m :: m in talks <==> m in v.messages && Talk(m)
    requires latest in talks && forall m :: m in talks ==> m.id <= latest.id
    ensures Waits(monitor, conversation, latest) && monitor.accepts(conversation, latest, v) ==>
              exists k: nat :: StalledAt(monitor, conversation, v, k) && v.messages[k] == latest
    ensures forall k: nat :: StalledAt(monitor, conversation, v, k) ==>
              v.messages[k] == latest && Waits(monitor, conversation, latest) && monitor.accepts(conversation, latest, v)
  {
    var at :| 0 <= at < |v.messages| && v.messages[at] == latest;
    forall j | at < j < |v.messages|
      ensures !Talk(v.messages[j])
    {
      assert v.messages[j] in v.messages && v.messages[j].id > latest.id;
    }
    forall k: nat | StalledAt(monitor, conversation, v, k)
      ensures k == at
    {
      assert v.messages[k] in talks;
    }
    if Waits(monitor, conversation, latest) && monitor.accepts(conversation, latest, v) {
      assert StalledAt(monitor, conversation, v, at);
    }
  }

  /** What the reads of each conversation yield. */
  type Views = int -> Result<View, string>

  function Problem(views: Views): int -> Option<string> {
    id => match views(id) case Success(_) => None case Failure(reason) => Some(reason)
  }

  /** The candidate of one conversation, as a function. */
  ghost function CandidateOf(monitor: Monitor, views: Views, id: int): Option<Candidate> {
    if views(id).Success? && exists k: nat :: StalledAt(monitor, id, views(id).value, k) then
      var k: nat :| StalledAt(monitor, id, views(id).value, k);
      Some(Candidate(id, views(id).value.messages[k].id, views(id).value.messages[k]))
    else None
  }

  /** The candidates of some conversations, in their order. */
  ghost function CandidatesOf(monitor: Monitor, views: Views, ids: seq<int>): seq<Candidate> {
    if ids == [] then []
    else
      var first := CandidateOf(monitor, views, ids[0]);
      (if first.Some? then [first.value] else []) + CandidatesOf(monitor, views, ids[1..])
  }

  lemma {:induction false} CandidatesOfConcatenation(monitor: Monitor, views: Views, a: seq<int>, b: seq<int>)
    ensures CandidatesOf(monitor, views, a + b) == CandidatesOf(monitor, views, a) + CandidatesOf(monitor, views, b)
  {
    if a == [] {
      assert a + b == b;
    } else {
      assert (a + b)[1..] == a[1..] + b;
      CandidatesOfConcatenation(monitor, views, a[1..], b);
    }
  }

  /** The conversation of a candidate is stalled, and this is the message that waits. */
  ghost predicate IsStalled(monitor: Monitor, views: Views, c: Candidate) {
    && views(c.conversation).Success?
    && var v := views(c.conversation).value;
       exists k: nat :: StalledAt(monitor, c.conversation, v, k) && c.message == v.messages[k].id && c.payload == v.messages[k]
  }

  /** The conversations stalled among those with these ids are at `ps`, in order, and `r`
      are their candidates. */
  ghost predicate AreTheStalled(r: seq<Candidate>, ps: seq<nat>, monitor: Monitor, views: Views, ids: seq<int>) {
    && ArePositions(ids, StalledId(monitor, views), ps) && |r| == |ps|
    && forall a :: 0 <= a < |r| ==> r[a].conversation == ids[ps[a]] && IsStalled(monitor, views, r[a])
  }

  ghost function StalledId(monitor: Monitor, views: Views): int -> bool {
    (id: int) => views(id).Success? && exists k: nat :: StalledAt(monitor, id, views(id).value, k)
  }

  lemma OneCandidate(monitor: Monitor, views: Views, id: int)
    ensures CandidateOf(monitor, views, id).Some? <==> StalledId(monitor, views)(id)
    ensures var c := CandidateOf(monitor, views, id);
            c.Some? ==> c.value.conversation == id && IsStalled(monitor, views, c.value)
  {
  }

  lemma {:induction false} CandidatesAreFiltered(monitor: Monitor, views: Views, ids: seq<int>, a: nat)
    ensures |CandidatesOf(monitor, views, ids)| == |Filter(ids, StalledId(monitor, views))|
    ensures a < |CandidatesOf(monitor, views, ids)| ==>
              CandidateOf(monitor, views, Filter(ids, StalledId(monitor, views))[a]) == Some(CandidatesOf(monitor, views, ids)[a])
  {
    if ids != [] {
      OneCandidate(monitor, views, ids[0]);
      CandidatesAreFiltered(monitor, views, ids[1..], if a > 0 && CandidateOf(monitor, views, ids[0]).Some? then a - 1 else a);
    }
  }

  lemma CandidatesAreStalled(monitor: Monitor, views: Views, ids: seq<int>)
    ensures exists ps :: AreTheStalled(CandidatesOf(monitor, views, ids), ps, monitor, views, ids)
    ensures forall c :: c in CandidatesOf(monitor, views, ids) ==> IsStalled(monitor, views, c)
  {
    var r := CandidatesOf(monitor, views, ids);
    var ps := FilterPicks(ids, StalledId(monitor, views));
    CandidatesAreFiltered(monitor, views, ids, 0);
    forall a | 0 <= a < |r|
      ensures r[a].conversation == ids[ps[a]] && IsStalled(monitor, views, r[a])
    {
      CandidatesAreFiltered(monitor, views, ids, a);
      OneCandidate(monitor, views, ids[ps[a]]);
    }
    assert AreTheStalled(r, ps, monitor, views, ids);
  }

  lemma {:induction false} NoCandidates(monitor: Monitor, views: Views, ids: seq<int>)
    requires forall i :: 0 <= i < |ids| ==> CandidateOf(monitor, views, ids[i]) == None
    ensures CandidatesOf(monitor, views, ids) == []
  {
    if ids != [] {
      NoCandidates(monitor, views, ids[1..]);
    }
  }

  /** The last activity of a conversation is at most `MARGIN` before any of its messages. */
  ghost predicate ActivityFollows(l: Listing, views: Views) {
    forall i, m :: 0 <= i < |l| && views(l[i].id).Success? && m in views(l[i].id).value.messages
                   && m.createdAt.Some? && l[i].activity.Some? ==>
      m.createdAt.value as real <= l[i].activity.value as real + MARGIN
  }

  /** No conversation below the cut is a candidate, so the early cut loses nothing. */
  lemma CutLosesNothing(monitor: Monitor, views: Views, l: Listing, inspected: seq<int>)
    requires ActivityFollows(l, views) && InspectedRecent(l, monitor.Cut(), inspected)
    ensures CandidatesOf(monitor, views, inspected) == CandidatesOf(monitor, views, IdSeq(l))
  {
    var n :| 0 <= n <= |l| && inspected == IdSeq(l[..n])
      && forall i :: 0 <= i < |l| ==> l[i].activity.Some? && (i < n <==> l[i].activity.value as real >= monitor.Cut());
    var rest := IdSeq(l[n..]);
    assert IdSeq(l) == inspected + rest;
    CandidatesOfConcatenation(monitor, views, inspected, rest);
    forall i | 0 <= i < |rest|
      ensures CandidateOf(monitor, views, rest[i]) == None
    {
    }
    NoCandidates(monitor, views, rest);
  }

  /** The loop over the inspected conversations. */
  method CollectCandidates(monitor: Monitor, views: Views, ids: seq<int>) returns (r: seq<Candidate>)
    requires ViewsAreInOrder(views)
    requires forall id :: id in ids ==> views(id).Success?
    ensures r == CandidatesOf(monitor, views, ids)
  {
    r := [];
    for i := 0 to |ids|
      invariant r == CandidatesOf(monitor, views, ids[..i])
    {
      var candidate := StalledCandidate(monitor, ids[i], views(ids[i]).value);
      assert ids[..i + 1] == ids[..i] + [ids[i]];
      CandidatesOfConcatenation(monitor, views, ids[..i], [ids[i]]);
      assert CandidateOf(monitor, views, ids[i]) == candidate;
      if candidate.Some? {
        r := r + [candidate.value];
      }
    }
    assert ids[..|ids|] == ids;
  }

  ghost predicate ViewsAreInOrder(views: Views) {
    forall id :: views(id).Success? ==> Increasing(views(id).value.messages)
  }

  /** The monitor. On a listing that stays still, where no activity is more than the
      margin before a message of its conversation, what it returns is what testing
      every open conversation of the listing gives, in the order of the listing. On a
      wholesome listing that moves it fails for its order only when several conversations
      come to the front between two requests. */
  method ListStalledConversations(
      pages: Pages, monitor: Monitor, views: Views, ghost motion: Motion, ghost size: nat)
    returns (r: Result<seq<Candidate>, ScanError>)
    requires size >= 1 && ViewsAreInOrder(views)
    ensures r == Failure(InvalidConfiguration)
            <==> !(monitor.inbox > 0 && 0.0 <= monitor.staleAfter <= monitor.maxAge && 1 <= monitor.maxPages <= 20)
    ensures r.Success? ==> forall c :: c in r.value ==> IsStalled(monitor, views, c)
    ensures r.Success? && motion.Valid() && Serves(pages, motion, size) && (forall p: nat :: p >= 1 ==> motion.at(p) == motion.at(1))
            && ActivityFollows(motion.at(1), views) ==>
              exists ps :: AreTheStalled(r.value, ps, monitor, views, IdSeq(motion.at(1)))
    ensures monitor.Valid() && r.Failure? && motion.Valid() && Serves(pages, motion, size)
            && (forall p: nat :: p >= 1 ==> motion.at(p) == motion.at(1)) && Wholesome(motion.at(1), monitor.inbox, Problem(views)) ==>
              && r == Failure(ScanIncomplete) && monitor.maxPages * size < |motion.at(1)|
              && forall i :: 0 <= i < monitor.maxPages * size ==>
                   motion.at(1)[i].activity.Some?
                   && motion.at(1)[i].activity.value as real >= monitor.now - monitor.maxAge - 3600.0
    ensures monitor.Valid() && r.Failure? && motion.Valid() && Serves(pages, motion, size)
            && AlwaysWholesome(motion, monitor.inbox, Problem(views)) ==>
              r.error == ScanIncomplete || (r.error == OrderUnexpected && !OneAtATime(motion))
  {
    if !monitor.Valid() {
      return Failure(InvalidConfiguration);
    }
    var ids, read := ScanListing(pages, monitor.inbox, monitor.Cut(), monitor.maxPages, Problem(views), {}, motion, size);
    if motion.Valid() && OneAtATime(motion) {
      OneAtATimeIsInOrder(motion, read, size);
    }
    if ids.Failure? {
      return Failure(ids.error);
    }
    forall id | id in ids.value
      ensures views(id).Success?
    {
      assert Problem(views)(id).None?;
    }
    var candidates := CollectCandidates(monitor, views, ids.value);
    CandidatesAreStalled(monitor, views, ids.value);
    CandidatesAreStalled(monitor, views, IdSeq(motion.at(1)));
    if motion.Valid() && Serves(pages, motion, size) && Frozen(motion) && ActivityFollows(motion.at(1), views) {
      CutLosesNothing(monitor, views, motion.at(1), ids.value);
    }
    return Success(candidates);
  }

  // -------------------------------------------------------------------------
  // Recent conversations of several states
  // -------------------------------------------------------------------------

  datatype Status = Open | Resolved | Pending | Snoozed

  predicate Distinct<T(==)>(s: seq<T>) {
    forall i, j :: 0 <= i < j < |s| ==> s[i] != s[j]
  }

  /** The conversations expected from the scan of one state, which ended at its `read`-th request. */
  ghost predicate NoneMissing(motion: Motion, read: nat, cut: real, found: seq<int>)
    requires read >= 1
  {
    forall x :: motion.Untouched(x, read) && x.activity.Some? && x.activity.value as real >= cut ==> x.id in found
  }

  /** Each state is scanned on its own and the conversations already found are skipped:
      every conversation is found at most once, and those that a state lists as recent
      and that did not move during its scan are all found. */
  method ListRecentConversations(
      pages: Status -> Pages, statuses: seq<Status>, inbox: int, activeSince: int, maxPages: int, limit: int,
      inspects: int -> Option<string>, ghost motions: Status -> Motion, ghost size: nat)
    returns (r: Result<seq<int>, ScanError>, ghost ends: map<Status, nat>)
    requires size >= 1
    ensures r == Failure(InvalidConfiguration) <==>
              inbox <= 0 || statuses == [] || !Distinct(statuses) || activeSince <= 0
              || !(1 <= maxPages <= MAX_SCAN_PAGES) || limit <= 0
    ensures r.Success? ==> Distinct(r.value)
    ensures r.Success? ==>
              forall s :: s in statuses ==> s in ends && 1 <= ends[s] <= maxPages
    ensures r.Success? ==>
              forall s :: s in statuses && motions(s).Valid() && Serves(pages(s), motions(s), size) ==>
                NoneMissing(motions(s), ends[s], activeSince as real, r.value)
  {
    ends := map[];
    if inbox <= 0 || statuses == [] || !Distinct(statuses) || activeSince <= 0
       || !(1 <= maxPages <= MAX_SCAN_PAGES) || limit <= 0 {
      return Failure(InvalidConfiguration), ends;
    }
    var cut := activeSince as real;
    var found: seq<int> := [];
    for i := 0 to |statuses|
      invariant Distinct(found)
      invariant forall s :: s in statuses[..i] ==> s in ends && 1 <= ends[s] <= maxPages
      invariant forall s :: s in statuses[..i] && motions(s).Valid() && Serves(pages(s), motions(s), size) ==>
                  NoneMissing(motions(s), ends[s], cut, found)
    {
      var status := statuses[i];
      var more, read := ScanListing(
        pages(status), inbox, cut, maxPages, inspects, (set id | id in found), motions(status), size);
      if more.Failure? {
        return Failure(more.error), ends;
      }
      assert statuses[..i + 1] == statuses[..i] + [status];
      ends := ends[status := read];
      found := found + more.value;
    }
    assert statuses[..|statuses|] == statuses;
    return Success(found), ends;
  }
}
