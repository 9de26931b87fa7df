/** The facts about a conversation since an anchor (`_get_canonical_messages` and the
    message part of `get_canonical_conversation_snapshot`). */
module CanonicalSnapshot {
  import opened Wrappers
  import opened Messages
  import opened HistoryReader
  import opened Positions

  const INVALID := "invalid_canonical_message"

  /** A message every field of which has the type the snapshot needs. */
  predicate Canonical(m: Message) {
    m.createdAt.Some? && m.isPrivate.Some? && (m.kind == Some(0) || m.kind == Some(1) || m.kind == Some(2))
  }

  predicate Dated(h: History) {
    forall i :: 0 <= i < |h| ==> h[i].createdAt.Some?
  }

  ghost predicate InTimeOrder(h: History) {
    Dated(h) && forall i, j :: 0 <= i <= j < |h| ==> h[i].createdAt.value <= h[j].createdAt.value
  }

  /** A page proves that everything since the anchor has been seen: it holds the
      anchor, it reaches back to the observed instant, or it is the oldest one. */
  predicate Bounds(page: History, anchor: Option<int>, observed: Option<int>)
    requires Dated(page)
  {
    || (anchor.Some? && anchor.value in Ids(page))
    || (anchor.None? && observed.Some? && exists i :: 0 <= i < |page| && page[i].createdAt.value <= observed.value)
    || |page| < PAGE
  }

  /** How far back the canonical reader goes: how many messages it collects and
      whether it proved the boundary; nothing when a message has no timestamp. */
  ghost function Walk(h: History, n: nat, anchor: Option<int>, observed: Option<int>, limit: int): Option<(nat, bool)>
    requires PAGE * n <= |h|
    decreases |h| - PAGE * n
  {
    if PAGE * n >= limit then Some((PAGE * n, false))
    else
      var page := Slice(h, n);
      if !Dated(page) then None
      else if page == [] || Bounds(page, anchor, observed) then Some((PAGE * n + |page|, true))
      else Walk(h, n + 1, anchor, observed, limit)
  }

  ghost function ReadCanonical(h: History, anchor: Option<int>, observed: Option<int>, limit: int)
    : Result<(History, bool), ScanError>
    requires limit >= 1
  {
    match Walk(h, 0, anchor, observed, limit)
    case None => Failure(Protocol(INVALID))
    case Some((k, boundary)) => Success((Last(Last(h, k), limit), boundary))
  }

  /** The messages after the one with the id `anchor`. */
  function AfterAnchor(h: History, anchor: int): History {
    if h == [] then []
    else if h[0].id == anchor then h[1..]
    else AfterAnchor(h[1..], anchor)
  }

  /** The messages after an instant, or all of them when no instant is given. */
  function AfterInstant(h: History, observed: Option<int>): History
    requires Dated(h)
  {
    if h == [] || observed.None? then h
    else if h[0].createdAt.value > observed.value then [h[0]] + AfterInstant(h[1..], observed)
    else AfterInstant(h[1..], observed)
  }

  function After(h: History, anchor: Option<int>, observed: Option<int>): History
    requires Dated(h)
  {
    if anchor.Some? then AfterAnchor(h, anchor.value) else AfterInstant(h, observed)
  }

  predicate IsInbound(m: Message) {
    m.kind == Some(INCOMING) && m.isPrivate == Some(false)
  }

  predicate IsHuman(m: Message) {
    m.kind == Some(OUTGOING) && m.isPrivate == Some(false) && (m.sender.Contact? || m.sender.OtherSender?)
  }

  /** What the person wrote, in order. */
  function InboundTexts(h: History): seq<string> {
    if h == [] then [] else (if IsInbound(h[0]) then [h[0].content] else []) + InboundTexts(h[1..])
  }

  /** `declines` stands for the detector of a clear refusal in a list of texts. */
  datatype Facts = Facts(anchorFound: bool, inbound: bool, human: bool, declined: bool, checkpoint: Option<Message>)

  function Since(after: History, found: bool, checkpoint: Option<Message>, declines: seq<string> -> bool): Facts {
    Facts(found,
          exists m :: m in after && IsInbound(m),
          exists m :: m in after && IsHuman(m),
          declines(InboundTexts(after)),
          checkpoint)
  }

  /** The message part of the snapshot over the messages read. */
  function SnapshotOf(
      messages: History, boundary: bool, anchor: Option<int>, observed: Option<int>, declines: seq<string> -> bool)
    : Result<Facts, ScanError>
  {
    if exists i :: 0 <= i < |messages| && !Canonical(messages[i]) then Failure(Protocol(INVALID))
    else
      Success(Since(After(messages, anchor, observed),
                    if anchor.Some? then anchor.value in Ids(messages) else boundary,
                    if messages == [] then None else Some(messages[|messages| - 1]),
                    declines))
  }

  // -------------------------------------------------------------------------
  // What the facts say, in terms of the messages alone
  // -------------------------------------------------------------------------

  /** A public message of the person, later than an instant if one is given. */
  predicate Wrote(m: Message, observed: Option<int>) {
    && m.kind == Some(INCOMING) && m.isPrivate == Some(false)
    && (observed.Some? ==> m.createdAt.Some? && m.createdAt.value > observed.value)
  }

  function WroteAfter(observed: Option<int>): Message -> bool {
    (m: Message) => Wrote(m, observed)
  }

  /** The flags are those of the messages later than the instant: whether the person
      wrote, whether somebody other than an agent bot answered in public, and what the
      detector says of the person's texts, in their order. */
  ghost predicate Tells(facts: Facts, messages: History, observed: Option<int>, declines: seq<string> -> bool) {
    && (facts.inbound <==> exists i :: 0 <= i < |messages| && Wrote(messages[i], observed))
    && (facts.human <==> exists i :: 0 <= i < |messages| && Answered(messages[i], observed))
    && (exists ps, texts ::
          && ArePositions(messages, WroteAfter(observed), ps)
          && TextsAt(texts, messages, ps) && facts.declined == declines(texts))
  }

  /** A public message of the team, by a sender that is an object and not an agent bot. */
  predicate Answered(m: Message, observed: Option<int>) {
    && m.kind == Some(OUTGOING) && m.isPrivate == Some(false) && m.sender != NotAnObject && !m.sender.AgentBot?
    && (observed.Some? ==> m.createdAt.Some? && m.createdAt.value > observed.value)
  }

  ghost predicate TextsAt(texts: seq<string>, messages: History, ps: seq<nat>) {
    |texts| == |ps| && forall a :: 0 <= a < |ps| ==> ps[a] < |messages| && texts[a] == messages[ps[a]].content
  }

  function IsLater(observed: Option<int>): Message -> bool {
    (m: Message) => observed.Some? ==> m.createdAt.Some? && m.createdAt.value > observed.value
  }

  lemma {:induction false} AfterInstantIsFiltered(h: History, observed: Option<int>)
    requires Dated(h)
    ensures AfterInstant(h, observed) == Filter(h, IsLater(observed))
  {
    if h != [] {
      AfterInstantIsFiltered(h[1..], observed);
      assert h == [h[0]] + h[1..];
    }
  }

  ghost predicate ContentsOf(texts: seq<string>, rows: History) {
    |texts| == |rows| && forall a :: 0 <= a < |rows| ==> texts[a] == rows[a].content
  }

  lemma {:induction false} TextsOfFiltered(h: History, observed: Option<int>)
    ensures ContentsOf(InboundTexts(Filter(h, IsLater(observed))), Filter(h, WroteAfter(observed)))
  {
    if h != [] {
      TextsOfFiltered(h[1..], observed);
      var later, rest := Filter(h, IsLater(observed)), Filter(h[1..], IsLater(observed));
      if IsLater(observed)(h[0]) {
        assert later == [h[0]] + rest;
        assert later[1..] == rest;
      } else {
        assert !Wrote(h[0], observed);
        assert later == rest;
      }
    }
  }

  /** What is counted of the messages is what `Since` counts of those later than the instant. */
  lemma SinceTells(h: History, observed: Option<int>, found: bool, checkpoint: Option<Message>, declines: seq<string> -> bool)
    ensures Tells(Since(Filter(h, IsLater(observed)), found, checkpoint, declines), h, observed, declines)
  {
    var later := Filter(h, IsLater(observed));
    var at := FilterPicks(h, IsLater(observed));
    LaterOnes(h, observed, later, at);
    var ps := FilterPicks(h, WroteAfter(observed));
    TextsOfFiltered(h, observed);
    assert TextsAt(InboundTexts(later), h, ps);
  }

  lemma LaterOnes(h: History, observed: Option<int>, later: History, at: seq<nat>)
    requires ArePositions(h, IsLater(observed), at) && Picks(later, h, at)
    ensures (exists m :: m in later && IsInbound(m)) <==> exists i :: 0 <= i < |h| && Wrote(h[i], observed)
    ensures (exists m :: m in later && IsHuman(m)) <==> exists i :: 0 <= i < |h| && Answered(h[i], observed)
  {
    forall i | 0 <= i < |h| && IsLater(observed)(h[i])
      ensures h[i] in later
    {
      var a :| 0 <= a < |at| && at[a] == i;
      assert later[a] == h[i];
    }
    forall m | m in later
      ensures IsLater(observed)(m) && m in h
    {
      var a :| 0 <= a < |later| && later[a] == m;
    }
  }

  lemma {:induction false} AllAreLater(h: History)
    ensures Filter(h, IsLater(None)) == h
  {
    if h != [] {
      AllAreLater(h[1..]);
    }
  }

  lemma {:induction false} AfterIsASuffix(h: History, k: nat)
    requires Increasing(h) && k < |h|
    ensures AfterAnchor(h, h[k].id) == h[k + 1..]
  {
    if k > 0 {
      AfterIsASuffix(h[1..], k - 1);
    }
  }

  lemma {:induction false} AfterAbsentAnchor(h: History, anchor: int)
    requires anchor !in Ids(h)
    ensures AfterAnchor(h, anchor) == []
  {
    if h != [] {
      assert h[0] in h;
      assert forall m :: m in h[1..] ==> m in h;
      AfterAbsentAnchor(h[1..], anchor);
    }
  }

  /** The facts over the messages read: with an anchor id, those of the messages after it,
      or of none when it is not among them; without one, those of the messages later than
      the instant. The checkpoint is the last message. */
  ghost predicate Describes(
      facts: Facts, messages: History, boundary: bool, anchor: Option<int>, observed: Option<int>, declines: seq<string> -> bool)
  {
    && facts.checkpoint == (if messages == [] then None else Some(messages[|messages| - 1]))
    && match anchor
       case None => facts.anchorFound == boundary && Tells(facts, messages, observed, declines)
       case Some(id) =>
         && (facts.anchorFound <==> exists at :: 0 <= at < |messages| && messages[at].id == id)
         && (forall at :: 0 <= at < |messages| && messages[at].id == id ==> Tells(facts, messages[at + 1..], None, declines))
         && (!facts.anchorFound ==> Tells(facts, [], None, declines))
  }

  lemma SnapshotDescribes(
      messages: History, boundary: bool, anchor: Option<int>, observed: Option<int>, declines: seq<string> -> bool, facts: Facts)
    requires Increasing(messages) && SnapshotOf(messages, boundary, anchor, observed, declines) == Success(facts)
    ensures Describes(facts, messages, boundary, anchor, observed, declines)
  {
    var last := if messages == [] then None else Some(messages[|messages| - 1]);
    if anchor.None? {
      AfterInstantIsFiltered(messages, observed);
      SinceTells(messages, observed, boundary, last, declines);
    } else if anchor.value in Ids(messages) {
      assert exists m :: m in messages && m.id == anchor.value;
      forall at | 0 <= at < |messages| && messages[at].id == anchor.value
        ensures Tells(facts, messages[at + 1..], None, declines)
      {
        AfterIsASuffix(messages, at);
        AllAreLater(messages[at + 1..]);
        SinceTells(messages[at + 1..], None, true, last, declines);
      }
    } else {
      forall at | 0 <= at < |messages|
        ensures messages[at].id != anchor.value
      {
        assert messages[at] in messages;
      }
      AfterAbsentAnchor(messages, anchor.value);
      AllAreLater([]);
      SinceTells([], None, false, last, declines);
    }
  }

  // -------------------------------------------------------------------------
  // The methods
  // -------------------------------------------------------------------------

  /** What one turn establishes about an honest page. */
  ghost predicate Turned(
      turn: Turn, page: History, anchor: Option<int>, observed: Option<int>)
  {
    match turn
    case Failed(e) => e == Protocol(INVALID) && !Dated(page)
    case AtBoundary => Dated(page) && (page == [] || Bounds(page, anchor, observed))
    case Enough => false
    case More(before) => Dated(page) && page != [] && !Bounds(page, anchor, observed)
  }

  /** Puts the messages of a page in the map, under the ids it does not have yet. */
  method AddMissing(collected: map<int, Message>, page: seq<Message>) returns (r: map<int, Message>)
    requires forall id :: id in collected ==> collected[id].id == id
    ensures forall id :: id in r ==> r[id].id == id
    ensures forall id :: id in collected ==> id in r && r[id] == collected[id]
    ensures forall id :: id in r && id !in collected ==> r[id] in page && FirstWith(page, id, r[id])
    ensures forall m :: m in page ==> m.id in r
  {
    r := collected;
    for i := 0 to |page|
      invariant forall id :: id in r ==> r[id].id == id
      invariant forall id :: id in collected ==> id in r && r[id] == collected[id]
      invariant forall id :: id in r && id !in collected ==> r[id] in page && FirstWith(page, id, r[id])
      invariant forall j :: 0 <= j < i ==> page[j].id in r
    {
      if page[i].id !in r {
        assert FirstWith(page, page[i].id, page[i]);
        r := r[page[i].id := page[i]];
      }
    }
  }

  /** The message is the first of the page with that id. */
  ghost predicate FirstWith(page: seq<Message>, id: int, m: Message) {
    exists i :: 0 <= i < |page| && page[i] == m && m.id == id && forall j :: 0 <= j < i ==> page[j].id != id
  }

  lemma OlderIsNotHeld(page: History, seen: History, collected: map<int, Message>, i: nat)
    requires Increasing(page + seen) && Holds(collected, seen) && i < |page|
    ensures page[i].id !in collected
  {
    forall j | 0 <= j < |seen|
      ensures seen[j].id != page[i].id
    {
      assert (page + seen)[i] == page[i] && (page + seen)[|page| + j] == seen[j];
    }
  }

  /** A page that is older than everything held goes in as it is. */
  lemma HoldsWithMissing(page: History, seen: History, collected: map<int, Message>, next: map<int, Message>)
    requires Increasing(page + seen) && Increasing(page) && Holds(collected, seen)
    requires forall id :: id in next ==> next[id].id == id
    requires forall id :: id in collected ==> id in next && next[id] == collected[id]
    requires forall id :: id in next && id !in collected ==> next[id] in page
    requires forall m :: m in page ==> m.id in next
    ensures Holds(next, page + seen)
  {
    forall m | m in page
      ensures next[m.id] == m
    {
      var i :| 0 <= i < |page| && page[i] == m;
      OlderIsNotHeld(page, seen, collected, i);
      var j :| 0 <= j < |page| && page[j] == next[m.id];
      assert i == j;
    }
  }

  lemma HonestPage(h: History, n: nat, page: History, seen: History, collected: map<int, Message>, next: map<int, Message>)
    requires Increasing(h) && PAGE * n <= |h| && seen == Last(h, PAGE * n) && page == Slice(h, n) && Holds(collected, seen)
    requires forall id :: id in next ==> next[id].id == id
    requires forall id :: id in collected ==> id in next && next[id] == collected[id]
    requires forall id :: id in next && id !in collected ==> next[id] in page
    requires forall m :: m in page ==> m.id in next
    ensures page + seen == Last(h, PAGE * n + |page|)
    ensures Holds(next, page + seen) && |next| == |page + seen| && |collected| == |seen|
  {
    SliceExtends(h, n);
    HoldsWithMissing(page, seen, collected, next);
    HeldSizes(page, seen, collected, next);
  }

  lemma HeldSizes(page: History, seen: History, collected: map<int, Message>, next: map<int, Message>)
    requires Increasing(page + seen) && Holds(collected, seen) && Holds(next, page + seen)
    ensures |next| == |page + seen| && |collected| == |seen|
  {
    assert forall j :: 0 <= j < |seen| ==> seen[j] == (page + seen)[|page| + j];
    HoldsIds(next, page + seen);
    HoldsIds(collected, seen);
  }

  /** The turn of a page whose messages have timestamps. */
  method TakeDatedPage(
      page: seq<Message>, collected: map<int, Message>, anchor: Option<int>, observed: Option<int>,
      ghost honest: bool, ghost h: History, ghost n: nat, ghost seen: History)
    returns (turn: Turn, next: map<int, Message>, ghost nowSeen: History)
    requires page != [] && Dated(page) && forall id :: id in collected ==> collected[id].id == id
    requires honest ==> Increasing(h) && PAGE * n <= |h| && seen == Last(h, PAGE * n) && Holds(collected, seen)
    requires honest ==> page == Slice(h, n)
    ensures forall id :: id in next ==> next[id].id == id
    ensures turn.Failed? ==> turn.error.Protocol?
    ensures turn.More? ==> |next| > |collected|
    ensures !turn.Enough?
    ensures turn.AtBoundary? <==> Bounds(page, anchor, observed)
    ensures honest ==>
              && !turn.Failed? && Holds(next, nowSeen) && |next| == |nowSeen| && nowSeen == Last(h, PAGE * n + |page|)
    ensures honest && turn.More? ==> PAGE * (n + 1) <= |h| && Some(turn.before) == Cursor(h, n + 1)
  {
    next := AddMissing(collected, page);
    nowSeen := seen;
    if honest {
      HonestPage(h, n, page, seen, collected, next);
      nowSeen := page + seen;
    }
    if Bounds(page, anchor, observed) {
      return AtBoundary, next, nowSeen;
    }
    if |next| == |collected| {
      return Failed(Protocol("canonical_history_did_not_advance")), next, nowSeen;
    }
    KeysGrow(collected, next);
    var cursor := OldestId(page);
    if honest {
      NextCursor(h, n, cursor);
    }
    return More(cursor), next, nowSeen;
  }

  /** One turn of the loop of `_get_canonical_messages`. */
  method TakeCanonicalPage(
      response: Response, collected: map<int, Message>, anchor: Option<int>, observed: Option<int>,
      ghost honest: bool, ghost h: History, ghost n: nat, ghost seen: History)
    returns (turn: Turn, next: map<int, Message>, ghost nowSeen: History)
    requires forall id :: id in collected ==> collected[id].id == id
    requires honest ==> Increasing(h) && PAGE * n <= |h| && seen == Last(h, PAGE * n) && Holds(collected, seen)
    requires honest ==> response == Payload(Slice(h, n))
    ensures forall id :: id in next ==> next[id].id == id
    ensures turn.Failed? ==> turn.error.Protocol?
    ensures turn.More? ==> |next| > |collected|
    ensures !turn.Enough?
    ensures honest ==> Turned(turn, Slice(h, n), anchor, observed)
    ensures honest && !turn.Failed? ==> Holds(next, nowSeen) && |next| == |nowSeen|
    ensures honest && !turn.Failed? ==> nowSeen == Last(h, PAGE * n + |Slice(h, n)|)
    ensures honest && turn.More? ==> PAGE * (n + 1) <= |h| && Some(turn.before) == Cursor(h, n + 1)
  {
    next, nowSeen := collected, seen;
    if response.Rejected? {
      return Failed(Protocol(response.reason)), next, nowSeen;
    }
    var page := response.messages;
    if page == [] {
      if honest {
        assert Increasing(seen);
        HoldsIds(collected, seen);
      }
      return AtBoundary, next, nowSeen;
    }
    if !Dated(page) {
      return Failed(Protocol(INVALID)), next, nowSeen;
    }
    turn, next, nowSeen := TakeDatedPage(page, collected, anchor, observed, honest, h, n, seen);
  }

  lemma KeysGrow(a: map<int, Message>, b: map<int, Message>)
    requires forall id :: id in a ==> id in b
    ensures |a| <= |b|
  {
    assert forall id :: id in a.Keys ==> id in b.Keys;
    assert a.Keys <= b.Keys;
    assert b.Keys == a.Keys + (b.Keys - a.Keys);
    assert |a| == |a.Keys| && |b| == |b.Keys|;
  }

  /** What a turn says about the walk. */
  lemma WalkTurn(
      turn: Turn, h: History, n: nat, anchor: Option<int>, observed: Option<int>, limit: int, nowSeen: History)
    requires PAGE * n <= |h| && PAGE * n < limit
    requires Turned(turn, Slice(h, n), anchor, observed)
    requires !turn.Failed? ==> nowSeen == Last(h, PAGE * n + |Slice(h, n)|)
    ensures turn.Failed? ==> turn.error == Protocol(INVALID) && Walk(h, n, anchor, observed, limit) == None
    ensures turn.AtBoundary? ==> IsLast(nowSeen, h) && Walk(h, n, anchor, observed, limit) == Some((|nowSeen|, true))
    ensures turn.More? ==> PAGE * (n + 1) <= |h| && nowSeen == Last(h, PAGE * (n + 1))
                           && Walk(h, n, anchor, observed, limit) == Walk(h, n + 1, anchor, observed, limit)
  {
    SliceFits(h, n);
  }

  lemma SliceFits(h: History, n: nat)
    requires PAGE * n <= |h|
    ensures PAGE * n + |Slice(h, n)| <= |h| && |Slice(h, n)| <= PAGE
  {
  }

  ghost predicate IsLast(part: History, h: History) {
    |part| <= |h| && part == Last(h, |part|)
  }

  /** Where the walk over an honest server is after `n` full pages. */
  ghost predicate Underway(
      h: History, n: nat, before: Option<int>, anchor: Option<int>, observed: Option<int>, limit: int,
      goal: Option<(nat, bool)>, seen: History)
  {
    && PAGE * n <= |h| && before == Cursor(h, n) && seen == Last(h, PAGE * n)
    && goal == Walk(h, n, anchor, observed, limit)
  }

  lemma WalkBegins(h: History, anchor: Option<int>, observed: Option<int>, limit: int)
    ensures Underway(h, 0, None, anchor, observed, limit, Walk(h, 0, anchor, observed, limit), [])
  {
  }

  lemma LimitReached(
      h: History, n: nat, before: Option<int>, anchor: Option<int>, observed: Option<int>, limit: int,
      goal: Option<(nat, bool)>, seen: History)
    requires Underway(h, n, before, anchor, observed, limit, goal, seen) && |seen| >= limit
    ensures IsLast(seen, h) && goal == Some((|seen|, false))
  {
    assert |seen| == PAGE * n;
  }

  /** One request and its turn, and what it says about the walk. */
  method TurnOfWalk(
      server: Server, n: nat, before: Option<int>, collected: map<int, Message>,
      anchor: Option<int>, observed: Option<int>, limit: int,
      ghost snapshots: nat -> History, ghost seen: History, ghost goal: Option<(nat, bool)>)
    returns (turn: Turn, next: map<int, Message>, ghost nowSeen: History)
    requires forall id :: id in collected ==> collected[id].id == id
    requires |collected| < limit
    requires Serves(server, snapshots) ==>
               && Underway(snapshots(0), n, before, anchor, observed, limit, goal, seen)
               && Holds(collected, seen) && |collected| == |seen|
    ensures forall id :: id in next ==> next[id].id == id
    ensures turn.Failed? ==> turn.error.Protocol?
    ensures turn.More? ==> |next| > |collected|
    ensures !turn.Enough?
    ensures Serves(server, snapshots) && turn.Failed? ==> turn.error == Protocol(INVALID) && goal == None
    ensures Serves(server, snapshots) && !turn.Failed? ==> Holds(next, nowSeen) && |next| == |nowSeen|
    ensures Serves(server, snapshots) && turn.AtBoundary? ==> IsLast(nowSeen, snapshots(0)) && goal == Some((|nowSeen|, true))
    ensures Serves(server, snapshots) && turn.More? ==>
              Underway(snapshots(0), n + 1, Some(turn.before), anchor, observed, limit, goal, nowSeen)
  {
    ghost var honest, h := Serves(server, snapshots), snapshots(0);
    if honest {
      PageIsASlice(server, snapshots, n);
    }
    turn, next, nowSeen := TakeCanonicalPage(server(n, before), collected, anchor, observed, honest, h, n, seen);
    if honest {
      WalkTurn(turn, h, n, anchor, observed, limit, nowSeen);
    }
  }

  /** The loop of `_get_canonical_messages`. */
  method CollectCanonical(
      server: Server, anchor: Option<int>, observed: Option<int>, limit: int,
      ghost snapshots: nat -> History, ghost goal: Option<(nat, bool)>)
    returns (collected: map<int, Message>, boundary: bool, failed: Option<ScanError>, ghost seen: History)
    requires limit >= 1
    requires goal == Walk(snapshots(0), 0, anchor, observed, limit)
    ensures forall id :: id in collected ==> collected[id].id == id
    ensures failed.Some? ==> failed.value.Protocol?
    ensures Serves(server, snapshots) && failed.Some? ==> failed == Some(Protocol(INVALID)) && goal == None
    ensures Serves(server, snapshots) && failed.None? ==>
              && IsLast(seen, snapshots(0)) && Holds(collected, seen)
              && goal == Some((|seen|, boundary))
  {
    collected, boundary, failed, seen := map[], false, None, [];
    var before: Option<int> := None;
    var more := true;
    ghost var honest, h := Serves(server, snapshots), snapshots(0);
    var requests := 0;
    WalkBegins(h, anchor, observed, limit);
    while more && |collected| < limit
      invariant requests >= 0
      invariant forall id :: id in collected ==> collected[id].id == id
      invariant more ==> !boundary
      invariant failed.Some? ==> !more && failed.value.Protocol?
      invariant honest && failed.None? ==> Holds(collected, seen) && |collected| == |seen|
      invariant honest && failed.Some? ==> failed == Some(Protocol(INVALID)) && goal == None
      invariant honest && more ==> Underway(h, requests, before, anchor, observed, limit, goal, seen)
      invariant honest && !more && failed.None? ==> IsLast(seen, h) && goal == Some((|seen|, boundary))
      decreases more, limit - |collected|
    {
      var turn;
      turn, collected, seen := TurnOfWalk(
        server, requests, before, collected, anchor, observed, limit, snapshots, seen, goal);
      more := turn.More?;
      boundary := turn.AtBoundary?;
      failed := if turn.Failed? then Some(turn.error) else None;
      before := if more then Some(turn.before) else before;
      requests := if more then requests + 1 else requests;
    }
    if honest && more {
      LimitReached(h, requests, before, anchor, observed, limit, goal, seen);
    }
  }

  /** `_get_canonical_messages`. */
  method GetCanonicalMessages(
      server: Server, anchor: Option<int>, observed: Option<int>, limit: int, ghost snapshots: nat -> History)
    returns (r: Result<(History, bool), ScanError>)
    requires limit >= 1
    ensures r.Failure? ==> r.error.Protocol?
    ensures r.Success? ==> Increasing(r.value.0)
    ensures Serves(server, snapshots) ==> r == ReadCanonical(snapshots(0), anchor, observed, limit)
  {
    ghost var goal := Walk(snapshots(0), 0, anchor, observed, limit);
    var collected, boundary, failed, seen := CollectCanonical(server, anchor, observed, limit, snapshots, goal);
    if failed.Some? {
      return Failure(failed.value);
    }
    var messages := InOrder(collected, collected.Keys);
    if Serves(server, snapshots) {
      PageIsASlice(server, snapshots, 0);
      ReadOfWalk(snapshots(0), anchor, observed, limit, collected, messages, seen, boundary);
    }
    return Success((Last(messages, limit), boundary));
  }

  /** What was collected, in order, is what the walk reads. */
  lemma ReadOfWalk(
      h: History, anchor: Option<int>, observed: Option<int>, limit: int,
      collected: map<int, Message>, messages: History, seen: History, boundary: bool)
    requires limit >= 1 && Increasing(h) && IsLast(seen, h) && Holds(collected, seen)
    requires Walk(h, 0, anchor, observed, limit) == Some((|seen|, boundary))
    requires Increasing(messages) && forall m :: m in messages <==> m.id in collected && collected[m.id] == m
    ensures ReadCanonical(h, anchor, observed, limit) == Success((Last(messages, limit), boundary))
  {
    HeldInOrder(collected, messages, seen);
  }

  lemma HeldInOrder(collected: map<int, Message>, messages: History, seen: History)
    requires Increasing(seen) && Holds(collected, seen)
    requires Increasing(messages) && forall m :: m in messages <==> m.id in collected && collected[m.id] == m
    ensures messages == seen
  {
    IncreasingIsUnique(messages, seen);
  }

  /** The message part of `get_canonical_conversation_snapshot`. */
  method Snapshot(
      server: Server, anchor: Option<int>, observed: Option<int>, limit: int, declines: seq<string> -> bool,
      ghost snapshots: nat -> History)
    returns (r: Result<Facts, ScanError>)
    ensures r == Failure(InvalidLimit) <==> !(1 <= limit <= 100)
    ensures 1 <= limit <= 100 && Serves(server, snapshots) ==>
              match ReadCanonical(snapshots(0), anchor, observed, limit)
              case Failure(e) => r == Failure(e)
              case Success((messages, boundary)) =>
                && r == SnapshotOf(messages, boundary, anchor, observed, declines)
                && (r.Success? ==> Describes(r.value, messages, boundary, anchor, observed, declines))
  {
    if limit < 1 || limit > 100 {
      return Failure(InvalidLimit);
    }
    var read := GetCanonicalMessages(server, anchor, observed, limit, snapshots);
    if read.Failure? {
      return Failure(read.error);
    }
    var (messages, boundary) := read.value;
    r := Examine(messages, boundary, anchor, observed, declines);
  }

  /** The pass over the messages: it validates each and remembers the anchor. */
  method Examine(
      messages: History, boundary: bool, anchor: Option<int>, observed: Option<int>, declines: seq<string> -> bool)
    returns (r: Result<Facts, ScanError>)
    requires Increasing(messages)
    ensures r == SnapshotOf(messages, boundary, anchor, observed, declines)
    ensures r.Success? ==> Describes(r.value, messages, boundary, anchor, observed, declines)
    ensures r.Failure? ==> r.error == Protocol(INVALID)
    ensures r.Failure? <==>
              exists i :: 0 <= i < |messages|
                          && (messages[i].createdAt.None? || messages[i].isPrivate.None?
                              || messages[i].kind !in {Some(INCOMING), Some(OUTGOING), Some(ACTIVITY)})
  {
    var anchorIndex: Option<nat> := None;
    for i := 0 to |messages|
      invariant forall j :: 0 <= j < i ==> Canonical(messages[j])
      invariant anchorIndex.Some? ==> anchor.Some? && anchorIndex.value < i && messages[anchorIndex.value].id == anchor.value
      invariant anchorIndex.None? && anchor.Some? ==> forall j :: 0 <= j < i ==> messages[j].id != anchor.value
    {
      if !Canonical(messages[i]) {
        return Failure(Protocol(INVALID));
      }
      if anchor.Some? && messages[i].id == anchor.value {
        anchorIndex := Some(i);
      }
    }
    var after := TakeAfter(messages, anchor, observed, anchorIndex);
    if anchor.Some? {
      IndexMeansAmong(messages, anchor, anchorIndex);
    }
    var checkpoint := if messages == [] then None else Some(messages[|messages| - 1]);
    r := Success(Since(after, if anchor.Some? then anchorIndex.Some? else boundary, checkpoint, declines));
    SnapshotDescribes(messages, boundary, anchor, observed, declines, r.value);
  }

  /** The index is that of the anchor, if it is among the messages. */
  predicate IsIndexOf(messages: History, anchor: Option<int>, index: Option<nat>) {
    && (index.Some? ==> anchor.Some? && index.value < |messages| && messages[index.value].id == anchor.value)
    && (index.None? && anchor.Some? ==> forall j :: 0 <= j < |messages| ==> messages[j].id != anchor.value)
  }

  lemma IndexMeansAmong(messages: History, anchor: Option<int>, index: Option<nat>)
    requires IsIndexOf(messages, anchor, index) && anchor.Some?
    ensures index.Some? <==> anchor.value in Ids(messages)
  {
    if index.Some? {
      assert messages[index.value] in messages;
    }
  }

  /** The messages that count, by the index of the anchor. */
  method TakeAfter(messages: History, anchor: Option<int>, observed: Option<int>, index: Option<nat>) returns (after: History)
    requires Increasing(messages) && Dated(messages) && IsIndexOf(messages, anchor, index)
    ensures after == After(messages, anchor, observed)
  {
    if anchor.None? {
      after := AfterInstant(messages, observed);
    } else if index.Some? {
      after := messages[index.value + 1..];
      AfterIsASuffix(messages, index.value);
    } else {
      after := [];
      IndexMeansAmong(messages, anchor, index);
      AfterAbsentAnchor(messages, anchor.value);
    }
  }

  // -------------------------------------------------------------------------
  // What the snapshot is worth
  // -------------------------------------------------------------------------

  lemma {:induction false} WalkBounds(h: History, n: nat, anchor: Option<int>, observed: Option<int>, limit: int)
    requires PAGE * n <= |h| && Increasing(h)
    requires Walk(h, n, anchor, observed, limit).Some?
    ensures var (k, boundary) := Walk(h, n, anchor, observed, limit).value;
            && k <= |h|
            && (boundary || k >= limit)
            && (boundary ==> k == |h| || (anchor.Some? && anchor.value in Ids(Last(h, k))) || anchor.None?)
    decreases |h| - PAGE * n
  {
    if PAGE * n < limit {
      var page := Slice(h, n);
      if page == [] || Bounds(page, anchor, observed) {
        SliceExtends(h, n);
        IdsOfConcatenation(page, Last(h, PAGE * n));
      } else {
        WalkBounds(h, n + 1, anchor, observed, limit);
      }
    }
  }

  /** The anchor is in a tail of the history: what follows it there is everything
      that follows it. */
  lemma {:induction false} AfterInTail(h: History, k: nat, anchor: int)
    requires Increasing(h) && anchor in Ids(Last(h, k))
    ensures AfterAnchor(Last(h, k), anchor) == AfterAnchor(h, anchor)
  {
    if |h| > k {
      assert Last(h[1..], k) == Last(h, k);
      forall t | t in Last(h, k)
        ensures h[0].id != t.id
      {
      }
      AfterInTail(h[1..], k, anchor);
    }
  }

  /** With an anchor id: the snapshot reports it found exactly when it is among the
      last `limit` messages, and then every flag is the one the whole history gives. */
  lemma AnchoredSnapshotIsFaithful(
      h: History, anchor: int, observed: Option<int>, limit: int, declines: seq<string> -> bool,
      messages: History, boundary: bool, facts: Facts)
    requires Increasing(h) && limit >= 1
    requires ReadCanonical(h, Some(anchor), observed, limit) == Success((messages, boundary))
    requires SnapshotOf(messages, boundary, Some(anchor), observed, declines) == Success(facts)
    ensures facts.anchorFound <==> exists at :: 0 <= at < |h| && |h| - limit <= at && h[at].id == anchor
    ensures facts.anchorFound ==> facts.checkpoint == Some(h[|h| - 1])
    ensures facts.anchorFound ==>
              forall at :: 0 <= at < |h| && h[at].id == anchor ==> Tells(facts, h[at + 1..], None, declines)
  {
    var (k, _) := Walk(h, 0, Some(anchor), observed, limit).value;
    ReachOfTheWalk(h, anchor, observed, limit);
    LastOfLast(h, k, limit);
    FactsOfTail(h, if k < limit then k else limit, anchor, boundary, observed, declines, facts);
    AmongTheLast(h, anchor, limit);
    if facts.anchorFound {
      forall at | 0 <= at < |h| && h[at].id == anchor
        ensures Tells(facts, h[at + 1..], None, declines)
      {
        AfterIsASuffix(h, at);
        AllAreLater(h[at + 1..]);
        SinceTells(h[at + 1..], None, true, Some(h[|h| - 1]), declines);
      }
    }
  }

  /** Which page, from the newest on, holds the message at `at`. */
  function PageOf(h: History, at: nat): (n: nat)
    requires at < |h|
    ensures PAGE * n <= |h| - 1 - at < PAGE * (n + 1)
  {
    (|h| - 1 - at) / PAGE
  }

  /** How many messages the pages hold up to that one. */
  function UpToItsPage(h: History, at: nat): (k: nat)
    requires at < |h|
    ensures k <= |h|
  {
    var k := PAGE * (PageOf(h, at) + 1);
    if k < |h| then k else |h|
  }

  lemma InItsPage(h: History, n: nat, at: nat)
    requires Increasing(h) && at < |h| && PAGE * n <= |h| - 1 - at
    ensures PAGE * n <= |h| && (h[at].id in Ids(Slice(h, n)) <==> n == PageOf(h, at))
    ensures n == PageOf(h, at) ==> PAGE * n + |Slice(h, n)| == UpToItsPage(h, at)
    ensures n < PageOf(h, at) ==> |Slice(h, n)| == PAGE
  {
    var page := Slice(h, n);
    var first := |h| - PAGE * n - |page|;
    forall i | 0 <= i < |page|
      ensures page[i].id == h[at].id <==> first + i == at
    {
      assert page[i] == h[first + i];
    }
    assert at >= first ==> page[at - first] in page;
  }

  /** The messages from one place to another have their times. */
  predicate DatedFrom(h: History, from: int, to: int)
    requires 0 <= from <= to <= |h|
  {
    forall i :: from <= i < to ==> h[i].createdAt.Some?
  }

  lemma SliceIsDated(h: History, n: nat)
    requires PAGE * n <= |h|
    ensures PAGE * n + |Slice(h, n)| <= |h|
    ensures Dated(Slice(h, n)) <==> DatedFrom(h, |h| - PAGE * n - |Slice(h, n)|, |h| - PAGE * n)
  {
    var page, first := Slice(h, n), |h| - PAGE * n - |Slice(h, n)|;
    assert forall i :: 0 <= i < |page| ==> page[i] == h[first + i];
    assert forall i :: first <= i < first + |page| ==> h[i] == page[i - first];
  }

  lemma OneTurnToTheAnchor(h: History, n: nat, at: nat, observed: Option<int>, limit: int)
    requires Increasing(h) && at < |h| && n < PageOf(h, at) && PAGE * n <= |h| && PAGE * n < limit
    ensures PAGE * (n + 1) <= |h|
    ensures Walk(h, n, Some(h[at].id), observed, limit)
            == if DatedFrom(h, |h| - PAGE * (n + 1), |h| - PAGE * n) then Walk(h, n + 1, Some(h[at].id), observed, limit)
               else None
  {
    InItsPage(h, n, at);
    SliceIsDated(h, n);
  }

  lemma LastTurnToTheAnchor(h: History, at: nat, observed: Option<int>, limit: int)
    requires Increasing(h) && at < |h| && PAGE * PageOf(h, at) < limit
    ensures Walk(h, PageOf(h, at), Some(h[at].id), observed, limit)
            == if DatedFrom(h, |h| - UpToItsPage(h, at), |h| - PAGE * PageOf(h, at)) then Some((UpToItsPage(h, at), true))
               else None
  {
    InItsPage(h, PageOf(h, at), at);
    SliceIsDated(h, PageOf(h, at));
  }

  lemma {:induction false} TheWalkStopsAtItsAnchor(h: History, n: nat, at: nat, observed: Option<int>, limit: int)
    requires Increasing(h) && at < |h| && n <= PageOf(h, at) && PAGE * PageOf(h, at) < limit
    ensures PAGE * n <= |h| && |h| - UpToItsPage(h, at) <= |h| - PAGE * n
    ensures Walk(h, n, Some(h[at].id), observed, limit)
            == if DatedFrom(h, |h| - UpToItsPage(h, at), |h| - PAGE * n) then Some((UpToItsPage(h, at), true)) else None
    decreases PageOf(h, at) - n
  {
    if n == PageOf(h, at) {
      LastTurnToTheAnchor(h, at, observed, limit);
    } else {
      OneTurnToTheAnchor(h, n, at, observed, limit);
      TheWalkStopsAtItsAnchor(h, n + 1, at, observed, limit);
    }
  }

  /** An anchor among the messages that the limit reaches: no page is read beyond its own, and
      only a message without a time on the pages read makes the reader fail. */
  lemma TheReadStopsAtItsAnchor(h: History, at: nat, observed: Option<int>, limit: int)
    requires Increasing(h) && at < |h| && |h| - limit <= at && limit >= 1
    ensures ReadCanonical(h, Some(h[at].id), observed, limit)
            == if DatedFrom(h, |h| - UpToItsPage(h, at), |h|)
               then Success((Last(Last(h, UpToItsPage(h, at)), limit), true))
               else Failure(Protocol(INVALID))
  {
    TheWalkStopsAtItsAnchor(h, 0, at, observed, limit);
  }

  lemma AmongTheLast(h: History, id: int, limit: nat)
    ensures id in Ids(Last(h, limit)) <==> exists at :: 0 <= at < |h| && |h| - limit <= at && h[at].id == id
  {
    var last := Last(h, limit);
    if m :| m in last && m.id == id {
      var i :| 0 <= i < |last| && last[i] == m;
      assert h[|h| - |last| + i].id == id;
    }
    if at :| 0 <= at < |h| && |h| - limit <= at && h[at].id == id {
      assert last[at - (|h| - |last|)] == h[at];
      assert h[at] in last;
    }
  }

  /** What the snapshot says of the end of a history. */
  lemma FactsOfTail(
      h: History, seen: nat, anchor: int, boundary: bool, observed: Option<int>, declines: seq<string> -> bool, facts: Facts)
    requires Increasing(h) && SnapshotOf(Last(h, seen), boundary, Some(anchor), observed, declines) == Success(facts)
    ensures facts.anchorFound <==> anchor in Ids(Last(h, seen))
    ensures facts.anchorFound ==> facts == Since(AfterAnchor(h, anchor), true, Some(h[|h| - 1]), declines)
  {
    if facts.anchorFound {
      AfterInTail(h, seen, anchor);
      LastOfTail(h, seen, anchor);
      FactsAreSince(Last(h, seen), boundary, anchor, observed, declines, facts, AfterAnchor(h, anchor), h[|h| - 1]);
    }
  }

  lemma LastOfTail(h: History, seen: nat, anchor: int)
    requires anchor in Ids(Last(h, seen))
    ensures Last(h, seen) != [] && Last(h, seen)[|Last(h, seen)| - 1] == h[|h| - 1]
  {
    var m :| m in Last(h, seen) && m.id == anchor;
  }

  lemma FactsAreSince(
      messages: History, boundary: bool, anchor: int, observed: Option<int>, declines: seq<string> -> bool, facts: Facts,
      after: History, last: Message)
    requires SnapshotOf(messages, boundary, Some(anchor), observed, declines) == Success(facts) && facts.anchorFound
    requires AfterAnchor(messages, anchor) == after && messages != [] && messages[|messages| - 1] == last
    ensures facts == Since(after, true, Some(last), declines)
  {
  }

  /** An anchor among the last `limit` messages is among the collected ones. */
  lemma ReachOfTheWalk(h: History, anchor: int, observed: Option<int>, limit: int)
    requires Increasing(h) && limit >= 1
    requires Walk(h, 0, Some(anchor), observed, limit).Some?
    ensures var (k, _) := Walk(h, 0, Some(anchor), observed, limit).value;
            var seen := if k < limit then k else limit;
            k <= |h| && (anchor in Ids(Last(h, seen)) <==> anchor in Ids(Last(h, limit)))
  {
    WalkBounds(h, 0, Some(anchor), observed, limit);
    var (k, _) := Walk(h, 0, Some(anchor), observed, limit).value;
    IdsOfLast(h, if k < limit then k else limit, limit);
  }

  lemma LastOfLast(h: History, k: nat, limit: nat)
    requires k <= |h|
    ensures Last(Last(h, k), limit) == Last(h, if k < limit then k else limit)
  {
  }

  lemma IdsOfLast(h: History, few: nat, many: nat)
    requires few <= many
    ensures Ids(Last(h, few)) <= Ids(Last(h, many))
  {
    assert forall m :: m in Last(h, few) ==> m in Last(h, many);
  }

  // -------------------------------------------------------------------------
  // Without an anchor id
  // -------------------------------------------------------------------------

  /** Without an anchor id the snapshot reports the boundary as found when the pages
      reach it, but looks only at the last `limit` messages. This says that, with
      `limit`, it then sees everything it should in every history. */
  ghost predicate SeesEverything(limit: int) {
    forall h: History, observed: Option<int> | Increasing(h) && InTimeOrder(h) :: Sees(h, observed, limit)
  }

  ghost predicate Sees(h: History, observed: Option<int>, limit: int)
    requires Increasing(h) && InTimeOrder(h)
  {
    match Walk(h, 0, None, observed, limit)
    case Some((k, true)) =>
      var messages := Last(Last(h, k), limit);
      Dated(messages) && AfterInstant(messages, observed) == AfterInstant(h, observed)
    case _ => true
  }

  /** The limits with which no message since the instant is dropped: a multiple of
      the page size, or one less. */
  predicate SafeLimit(limit: int) {
    limit % PAGE == 0 || limit % PAGE == PAGE - 1
  }

  lemma {:induction false} NothingBeforeTheInstant(h: History, k: nat, observed: int)
    requires InTimeOrder(h)
    requires k <= |h|
    requires k > 0 ==> h[k - 1].createdAt.value <= observed
    ensures AfterInstant(h, Some(observed)) == AfterInstant(h[k..], Some(observed))
  {
    if k > 0 {
      assert h[0].createdAt.value <= observed;
      NothingBeforeTheInstant(h[1..], k - 1, observed);
      assert h[1..][k - 1..] == h[k..];
    } else {
      assert h[k..] == h;
    }
  }

  /** How many messages the pages hold that are asked for: the limit, up to a full page. */
  function Asked(limit: int): int {
    PAGE * ((limit + PAGE - 1) / PAGE)
  }

  /** The history begins after that many messages, or they reach back to the instant. */
  ghost predicate ReachesTheInstant(h: History, observed: Option<int>, asked: int)
    requires asked >= 0
  {
    |h| < asked || (asked > 0 && observed.Some? && h[|h| - asked].createdAt.Some? && h[|h| - asked].createdAt.value <= observed.value)
  }

  /** Without an anchor id, the boundary is reported as found exactly when the history
      begins within the pages asked for, or they reach back to the instant. */
  lemma BoundaryMeans(h: History, observed: Option<int>, limit: int, messages: History, boundary: bool)
    requires Increasing(h) && InTimeOrder(h) && limit >= 1
    requires ReadCanonical(h, None, observed, limit) == Success((messages, boundary))
    ensures boundary <==> ReachesTheInstant(h, observed, Asked(limit))
  {
    BoundaryFrom(h, 0, observed, limit);
  }

  lemma {:induction false} BoundaryFrom(h: History, n: nat, observed: Option<int>, limit: int)
    requires Increasing(h) && InTimeOrder(h) && limit >= 1 && PAGE * n <= |h| && PAGE * n < limit + PAGE
    requires n > 0 ==> !ReachesTheInstant(h, observed, PAGE * n)
    ensures Walk(h, n, None, observed, limit).Some?
    ensures Walk(h, n, None, observed, limit).value.1 <==> ReachesTheInstant(h, observed, Asked(limit))
    decreases |h| - PAGE * n
  {
    var page := Slice(h, n);
    SliceFits(h, n);
    if PAGE * n >= limit {
      assert Asked(limit) == PAGE * n;
    } else {
      assert Asked(limit) >= PAGE * (n + 1);
      PageBounds(h, n, observed);
      if page == [] || Bounds(page, None, observed) {
        LongerReaches(h, observed, PAGE * (n + 1), Asked(limit));
      } else {
        BoundaryFrom(h, n + 1, observed, limit);
      }
    }
  }

  /** A page that stops the walk reaches the instant. */
  lemma PageBounds(h: History, n: nat, observed: Option<int>)
    requires Increasing(h) && InTimeOrder(h) && PAGE * n <= |h|
    ensures Dated(Slice(h, n))
    ensures Slice(h, n) == [] || Bounds(Slice(h, n), None, observed) <==> ReachesTheInstant(h, observed, PAGE * (n + 1))
  {
    SliceFits(h, n);
    var page := Slice(h, n);
    var k := |h| - PAGE * n - |page|;
    forall i | 0 <= i < |page|
      ensures page[i] == h[k + i] && page[i].createdAt.Some?
    {
    }
    if |page| == PAGE && observed.Some? {
      assert page[0] == h[k];
      forall i | 0 <= i < PAGE
        ensures page[0].createdAt.value <= page[i].createdAt.value
      {
        assert h[k].createdAt.value <= h[k + i].createdAt.value;
      }
    }
  }

  lemma LongerReaches(h: History, observed: Option<int>, few: nat, many: nat)
    requires InTimeOrder(h) && 0 < few <= many && ReachesTheInstant(h, observed, few)
    ensures ReachesTheInstant(h, observed, many)
  {
    if many <= |h| {
      assert h[|h| - many].createdAt.value <= h[|h| - few].createdAt.value;
    }
  }

  /** How the walk ends when it proves the boundary without an anchor id. */
  lemma {:induction false} WalkWithoutAnchor(h: History, n: nat, observed: Option<int>, limit: int)
    requires PAGE * n <= |h| && Increasing(h) && InTimeOrder(h)
    requires Walk(h, n, None, observed, limit).Some? && Walk(h, n, None, observed, limit).value.1
    ensures var (k, _) := Walk(h, n, None, observed, limit).value;
            && k <= |h|
            && exists pages: nat ::
                 && PAGE * pages < limit && PAGE * pages <= k <= PAGE * pages + PAGE
                 && ((k == |h| && k < PAGE * pages + PAGE)
                     || (k == PAGE * pages + PAGE && observed.Some? && h[|h| - k].createdAt.value <= observed.value))
    decreases |h| - PAGE * n
  {
    var page := Slice(h, n);
    if page == [] || Bounds(page, None, observed) {
      SliceExtends(h, n);
      var k := PAGE * n + |page|;
      assert PAGE * n < limit && PAGE * n <= k <= PAGE * n + PAGE;
      if |page| == PAGE {
        assert page[0] == h[|h| - k];
      }
    } else {
      WalkWithoutAnchor(h, n + 1, observed, limit);
    }
  }

  /** With a safe limit, what the limit cuts off is not after the instant. */
  lemma CutIsNotAfter(h: History, k: nat, pages: nat, observed: Option<int>, limit: int, cut: nat)
    requires InTimeOrder(h) && limit >= 1 && SafeLimit(limit) && k <= |h|
    requires PAGE * pages < limit && PAGE * pages <= k <= PAGE * pages + PAGE
    requires || (k == |h| && k < PAGE * pages + PAGE)
             || (k == PAGE * pages + PAGE && observed.Some? && h[|h| - k].createdAt.value <= observed.value)
    requires cut == |h| - (if k < limit then k else limit)
    ensures cut > 0 ==> observed.Some? && h[cut - 1].createdAt.value <= observed.value
  {
    assert k <= limit + 1;
    if cut > 0 {
      assert cut - 1 <= |h| - k;
    }
  }

  lemma SafeLimitsSee(h: History, observed: Option<int>, limit: int)
    requires Increasing(h) && InTimeOrder(h) && limit >= 1 && SafeLimit(limit)
    ensures Sees(h, observed, limit)
  {
    var walk := Walk(h, 0, None, observed, limit);
    if walk.Some? && walk.value.1 {
      WalkWithoutAnchor(h, 0, observed, limit);
      var k := walk.value.0;
      var cut := |h| - (if k < limit then k else limit);
      var pages: nat :|
        && PAGE * pages < limit && PAGE * pages <= k <= PAGE * pages + PAGE
        && ((k == |h| && k < PAGE * pages + PAGE)
            || (k == PAGE * pages + PAGE && observed.Some? && h[|h| - k].createdAt.value <= observed.value));
      CutIsNotAfter(h, k, pages, observed, limit, cut);
      LastOfLast(h, k, limit);
      assert Last(Last(h, k), limit) == h[cut..];
      if cut > 0 {
        NothingBeforeTheInstant(h, cut, observed.value);
      } else {
        assert h[cut..] == h;
      }
    }
  }

  /** Then, when the boundary is reported as found, the facts are those of the whole
      history since the instant. */
  lemma NoAnchorFactsAreOfTheHistory(
      h: History, observed: Option<int>, limit: int, declines: seq<string> -> bool, messages: History, facts: Facts)
    requires Increasing(h) && InTimeOrder(h) && limit >= 1 && SafeLimit(limit)
    requires ReadCanonical(h, None, observed, limit) == Success((messages, true))
    requires SnapshotOf(messages, true, None, observed, declines) == Success(facts)
    ensures facts.anchorFound && Tells(facts, h, observed, declines)
  {
    SafeLimitsSee(h, observed, limit);
    AfterInstantIsFiltered(h, observed);
    SinceTells(h, observed, true, facts.checkpoint, declines);
  }

  /** A conversation in which the person wrote `n` messages. */
  function Chat(n: nat): (h: History)
    ensures |h| == n
    ensures forall i :: 0 <= i < n ==> h[i].id == i && h[i].createdAt == Some(1) && IsInbound(h[i])
  {
    if n == 0 then []
    else Chat(n - 1) + [Message(n - 1, 1, Some(1), Some(false), Some(INCOMING), Contact, "", true, None)]
  }

  lemma {:induction false} WalkReachesTheBeginning(h: History, n: nat, limit: int)
    requires Increasing(h) && Dated(h)
    requires n <= |h| / PAGE && PAGE * (|h| / PAGE) < limit
    ensures Walk(h, n, None, None, limit) == Some((|h|, true))
    decreases |h| / PAGE - n
  {
    SliceExtends(h, n);
    if n < |h| / PAGE {
      WalkReachesTheBeginning(h, n + 1, limit);
    }
  }

  /** With any other limit there is a conversation whose first message is dropped
      although the boundary is reported as found. */
  lemma UnsafeLimitsMiss(limit: int)
    requires limit >= 1 && !SafeLimit(limit)
    ensures !SeesEverything(limit)
  {
    var h := Chat(limit + 1);
    WalkReachesTheBeginning(h, 0, limit);
    LastOfLast(h, |h|, limit);
    assert AfterInstant(h, None) == h;
    assert !Sees(h, None, limit);
  }

  /** Without an anchor id, "found" means that nothing since the instant was missed
      exactly for the safe limits (the default, 100, is one). */
  lemma NoAnchorSnapshotIsFaithful(limit: int)
    requires limit >= 1
    ensures SeesEverything(limit) <==> SafeLimit(limit)
  {
    if SafeLimit(limit) {
      forall h: History, observed: Option<int> | Increasing(h) && InTimeOrder(h)
        ensures Sees(h, observed, limit)
      {
        SafeLimitsSee(h, observed, limit);
      }
    } else {
      UnsafeLimitsMiss(limit);
    }
  }
}
