/** The bounded reader of a conversation's history (`get_conversation_messages`):
    it pages backwards with a cursor, at most 100 pages of 20 messages. */
module HistoryReader {
  import opened Wrappers
  import opened Messages

  const PAGE := 20
  const MAX_PAGES := 100
  const REACH := 2000

  datatype ScanError =
    | InvalidLimit
    | Protocol(reason: string)
    | HistoryBoundaryBeyondScanLimit
    | RequiredMessagesBeyondScanLimit

  /** One response of the messages endpoint: either a failure the reader reports
      (HTTP, JSON, payload shape, an id that is not an integer) or the messages. */
  datatype Response = Rejected(reason: string) | Payload(messages: seq<Message>)

  /** The environment: what the server answers to the i-th request with that cursor. */
  type Server = (nat, Option<int>) -> Response

  /** What the endpoint serves of a history: the last 20 messages before the cursor. */
  function PageBefore(h: History, before: Option<int>): seq<Message> {
    if before == None then Last(h, PAGE) else Last(Before(h, before.value), PAGE)
  }

  /** The messages with an id below the cursor. */
  function Before(h: History, id: int): History {
    if h == [] then []
    else if h[0].id < id then [h[0]] + Before(h[1..], id)
    else Before(h[1..], id)
  }

  /** The server serves a history that may grow at its end between two requests. */
  ghost predicate Serves(server: Server, snapshots: nat -> History) {
    forall i: nat :: ServesAt(server, i, snapshots(0), snapshots(i))
  }

  /** At request `i` the server serves `now`, which extends the `first` snapshot. */
  ghost predicate ServesAt(server: Server, i: nat, first: History, now: History) {
    && Increasing(now)
    && first <= now
    && forall before :: server(i, before) == Payload(PageBefore(now, before))
  }

  /** The last `limit` messages and, of the rest, the required ones. */
  function Select(h: History, limit: int, required: set<int>): History
    requires limit >= 0
    decreases |h|
  {
    if |h| <= limit then h
    else (if h[0].id in required then [h[0]] else []) + Select(h[1..], limit, required)
  }

  /** The full pages the reader can take of a history. */
  function Reachable(h: History): nat {
    if |h| / PAGE < MAX_PAGES then |h| / PAGE else MAX_PAGES
  }

  /** The reader is satisfied before it sees the beginning of the history. */
  predicate StopsEarly(h: History, limit: int, required: set<int>) {
    var seen := PAGE * Reachable(h);
    seen >= limit && required <= Ids(Last(h, seen))
  }

  /** What a read of the history `h` yields, with no mention of pages or cursors
      except for how far the reader can look. */
  function Read(h: History, limit: int, required: set<int>, wantsBoundary: bool): Result<History, ScanError>
    requires limit > 0
  {
    if StopsEarly(h, limit, required) then
      if wantsBoundary then Failure(HistoryBoundaryBeyondScanLimit)
      else Success(Select(h, limit, required))
    else if |h| < REACH then Success(Select(h, limit, required))
    else if wantsBoundary then Failure(HistoryBoundaryBeyondScanLimit)
    else Failure(RequiredMessagesBeyondScanLimit)
  }

  /** Over a history in id order, the cursor cuts at the message it names. */
  lemma {:induction false} BeforeIsAPrefix(h: History, k: nat)
    requires Increasing(h) && k < |h|
    ensures Before(h, h[k].id) == h[..k]
  {
    if k > 0 {
      BeforeIsAPrefix(h[1..], k - 1);
      assert h[..k] == [h[0]] + h[1..][..k - 1];
    } else {
      NothingBelowTheFirst(h, h[0].id);
    }
  }

  lemma {:induction false} NothingBelowTheFirst(h: History, id: int)
    requires Increasing(h) && (h == [] || id <= h[0].id)
    ensures Before(h, id) == []
  {
    if h != [] {
      NothingBelowTheFirst(h[1..], id);
    }
  }

  /** What `Select` keeps. */
  lemma {:induction false} SelectKeeps(h: History, limit: int, required: set<int>)
    requires limit >= 0
    ensures forall m :: m in Select(h, limit, required) <==>
                        m in h && (m in Last(h, limit) || m.id in required)
  {
    if |h| > limit {
      SelectKeeps(h[1..], limit, required);
      assert Last(h, limit) == Last(h[1..], limit);
      assert forall m :: m in h <==> m == h[0] || m in h[1..];
    }
  }

  lemma {:induction false} SelectIsInOrder(h: History, limit: int, required: set<int>)
    requires limit >= 0 && Increasing(h)
    ensures Increasing(Select(h, limit, required))
  {
    if |h| > limit {
      var rest := Select(h[1..], limit, required);
      SelectIsInOrder(h[1..], limit, required);
      SelectKeeps(h[1..], limit, required);
      forall i | 0 <= i < |rest|
        ensures h[0].id < rest[i].id
      {
        assert rest[i] in h[1..];
      }
    }
  }

  /** The messages with the given ids, in id order. */
  method InOrder(collected: map<int, Message>, ids: set<int>) returns (r: History)
    requires ids <= collected.Keys
    requires forall id :: id in collected ==> collected[id].id == id
    ensures Increasing(r)
    ensures forall m :: m in r <==> m.id in ids && collected[m.id] == m
  {
    r := [];
    var rest := ids;
    while rest != {}
      invariant rest <= ids
      invariant Increasing(r)
      invariant forall m :: m in r <==> m.id in ids - rest && collected[m.id] == m
      invariant forall m, id :: m in r && id in rest ==> m.id < id
    {
      Least(rest);
      var least :| least in rest && forall id :: id in rest ==> least <= id;
      r := r + [collected[least]];
      rest := rest - {least};
    }
  }

  lemma {:induction false} Least(s: set<int>)
    requires |s| > 0
    ensures exists least :: least in s && forall id :: id in s ==> least <= id
  {
    assert (forall x :: x !in s) ==> s == {};
    var x :| x in s;
    var others := s - {x};
    assert s == others + {x};
    if |others| == 0 {
      assert forall id :: id in s ==> x <= id;
    } else {
      Least(others);
      var y :| y in others && forall id :: id in others ==> y <= id;
      var least := if x < y then x else y;
      assert least in s && forall id :: id in s ==> least <= id;
    }
  }

  /** The least id of a page. */
  method OldestId(page: seq<Message>) returns (id: int)
    requires page != []
    ensures exists m :: m in page && m.id == id
    ensures forall m :: m in page ==> id <= m.id
  {
    id := page[0].id;
    for i := 1 to |page|
      invariant exists m :: m in page[..i] && m.id == id
      invariant forall m :: m in page[..i] ==> id <= m.id
    {
      assert page[..i + 1] == page[..i] + [page[i]];
      if page[i].id < id {
        id := page[i].id;
      }
    }
    assert page[..|page|] == page;
  }

  /** Puts the messages of a page in the map, the later ones over the earlier. */
  method AddPage(collected: map<int, Message>, page: seq<Message>) returns (r: map<int, Message>)
    requires forall id :: id in collected ==> collected[id].id == id
    ensures forall id :: id in r ==> r[id].id == id
    ensures forall id :: id in collected ==> id in r
    ensures forall id :: id in r ==> r[id] in page || (id in collected && r[id] == collected[id])
    ensures forall m :: m in page ==> m.id in r
    ensures Increasing(page) ==> forall m :: m in page ==> r[m.id] == m
  {
    r := collected;
    for i := 0 to |page|
      invariant forall id :: id in r ==> r[id].id == id
      invariant forall id :: id in collected ==> id in r
      invariant forall id :: id in r ==> r[id] in page || (id in collected && r[id] == collected[id])
      invariant forall j :: 0 <= j < i ==> page[j].id in r
      invariant Increasing(page) ==> forall j :: 0 <= j < i ==> r[page[j].id] == page[j]
    {
      r := r[page[i].id := page[i]];
    }
  }

  /** `collected` holds exactly the messages of `h`. */
  ghost predicate Holds(collected: map<int, Message>, h: History) {
    && (forall m :: m in h ==> m.id in collected && collected[m.id] == m)
    && (forall id :: id in collected ==> collected[id] in h && collected[id].id == id)
  }

  lemma HoldsIds(collected: map<int, Message>, h: History)
    requires Increasing(h) && Holds(collected, h)
    ensures collected.Keys == Ids(h) && |collected| == |h|
  {
    forall id
      ensures id in collected.Keys <==> id in Ids(h)
    {
    }
    assert collected.Keys == Ids(h);
    assert |collected| == |collected.Keys|;
    IdsAreAsManyAsMessages(h);
  }

  /** The cursor after `n` full pages of `h`. */
  ghost function Cursor(h: History, n: nat): Option<int>
    requires PAGE * n <= |h|
  {
    if n == 0 then None else Some(h[|h| - PAGE * n].id)
  }

  /** The page that request `n` brings is a slice of the first snapshot, whatever
      arrived since. */
  ghost function Slice(h: History, n: nat): History
    requires PAGE * n <= |h|
  {
    Last(h[..|h| - PAGE * n], PAGE)
  }

  lemma PageIsASlice(server: Server, snapshots: nat -> History, n: nat)
    requires Serves(server, snapshots)
    requires PAGE * n <= |snapshots(0)|
    ensures Increasing(snapshots(0))
    ensures server(n, Cursor(snapshots(0), n)) == Payload(Slice(snapshots(0), n))
  {
    var h := snapshots(0);
    assert ServesAt(server, 0, h, h);
    assert ServesAt(server, n, h, snapshots(n));
    if n == 0 {
      assert h[..|h|] == h;
    } else {
      var k := |h| - PAGE * n;
      assert snapshots(n)[k] == h[k];
      BeforeIsAPrefix(snapshots(n), k);
      assert snapshots(n)[..k] == h[..k];
    }
  }

  /** The next page and the part already collected are one longer tail. */
  lemma SliceExtends(h: History, n: nat)
    requires Increasing(h) && PAGE * n <= |h|
    ensures var page, rest := Slice(h, n), Last(h, PAGE * n);
            && page + rest == Last(h, PAGE * n + |page|)
            && Increasing(page) && Increasing(page + rest)
  {
    var page, rest := Slice(h, n), Last(h, PAGE * n);
    var k := |h| - PAGE * n;
    assert h == h[..k] + h[k..];
    assert page + rest == h[k - |page|..];
  }

  /** The oldest id of a full page is the next cursor. */
  lemma NextCursor(h: History, n: nat, id: int)
    requires Increasing(h) && PAGE * n <= |h| && |Slice(h, n)| == PAGE
    requires exists m :: m in Slice(h, n) && m.id == id
    requires forall m :: m in Slice(h, n) ==> id <= m.id
    ensures PAGE * (n + 1) <= |h| && Some(id) == Cursor(h, n + 1)
    ensures Slice(h, n) + Last(h, PAGE * n) == Last(h, PAGE * (n + 1))
  {
    SliceExtends(h, n);
    var first := Slice(h, n)[0];
    assert first == h[|h| - PAGE * (n + 1)];
    assert first in Slice(h, n);
  }

  lemma HoldsAfterPage(page: History, rest: History, collected: map<int, Message>, next: map<int, Message>)
    requires Increasing(page + rest)
    requires Holds(collected, rest)
    requires forall id :: id in next ==> next[id].id == id
    requires forall id :: id in collected ==> id in next
    requires forall id :: id in next ==> next[id] in page || (id in collected && next[id] == collected[id])
    requires forall m :: m in page ==> m.id in next && next[m.id] == m
    ensures Holds(next, page + rest)
  {
    forall m | m in rest
      ensures m.id in next && next[m.id] == m
    {
      var j :| 0 <= j < |rest| && rest[j] == m;
      assert (page + rest)[|page| + j] == m;
      forall i | 0 <= i < |page|
        ensures page[i].id < m.id
      {
        assert (page + rest)[i] == page[i];
      }
    }
  }

  /** Every tail that already holds `limit` messages and the required ones selects
      what the whole history selects. */
  lemma {:induction false} SelectOfTail(h: History, k: nat, limit: int, required: set<int>)
    requires Increasing(h) && 0 <= limit <= k && required <= Ids(Last(h, k))
    ensures Select(Last(h, k), limit, required) == Select(h, limit, required)
  {
    if |h| > k {
      assert Last(h[1..], k) == Last(h, k);
      forall t | t in Last(h, k)
        ensures h[0].id != t.id
      {
      }
      assert h[0].id !in required;
      SelectOfTail(h[1..], k, limit, required);
    }
  }

  lemma EnoughIsMonotone(h: History, n: nat, limit: int, required: set<int>)
    requires n <= Reachable(h)
    requires PAGE * n >= limit && required <= Ids(Last(h, PAGE * n))
    ensures StopsEarly(h, limit, required)
  {
    var most := Last(h, PAGE * Reachable(h));
    forall m | m in Last(h, PAGE * n)
      ensures m in most
    {
    }
  }

  /** The selection over the collected map: sorted ids, the last `limit`, and the
      required ones that were found. */
  method Choose(collected: map<int, Message>, limit: int, required: set<int>) returns (r: History)
    requires limit > 0
    requires forall id :: id in collected ==> collected[id].id == id
    ensures Increasing(r)
    ensures forall part :: Increasing(part) && Holds(collected, part) ==> r == Select(part, limit, required)
  {
    var ordered := InOrder(collected, collected.Keys);
    var selected := Ids(Last(ordered, limit)) + required * collected.Keys;
    r := InOrder(collected, selected);
    forall part | Increasing(part) && Holds(collected, part)
      ensures r == Select(part, limit, required)
    {
      IncreasingIsUnique(ordered, part);
      SelectKeeps(part, limit, required);
      SelectIsInOrder(part, limit, required);
      forall m
        ensures m in r <==> m in Select(part, limit, required)
      {
        if m in part && m.id in Ids(Last(part, limit)) {
          var t: Message :| t in Last(part, limit) && t.id == m.id;
          assert t in part && t == m;
        }
      }
      IncreasingIsUnique(r, Select(part, limit, required));
    }
  }

  /** The state in which the paging loop stops: at the beginning of the history, or
      with enough, or with no request left. */
  ghost predicate Stopped(
      h: History, limit: int, required: set<int>, collected: map<int, Message>, reachedBoundary: bool, seen: History)
  {
    && Holds(collected, seen)
    && collected.Keys == Ids(seen) && |collected| == |seen|
    && if reachedBoundary then
         seen == h && |h| < REACH && !StopsEarly(h, limit, required)
       else
         && |seen| <= |h| && seen == Last(h, |seen|)
         && if |seen| >= limit && required <= Ids(seen) then StopsEarly(h, limit, required)
            else |h| >= REACH && !StopsEarly(h, limit, required)
  }

  /** The three ways out of the paging loop. */
  lemma StoppedAtBoundary(h: History, n: nat, limit: int, required: set<int>)
    requires Increasing(h) && n < MAX_PAGES && PAGE * n <= |h| && |Slice(h, n)| < PAGE
    requires !(PAGE * n >= limit && required <= Ids(Last(h, PAGE * n)))
    ensures Slice(h, n) + Last(h, PAGE * n) == h
    ensures |h| < REACH && !StopsEarly(h, limit, required)
  {
    SliceExtends(h, n);
    assert Reachable(h) == n;
  }

  lemma StoppedSatisfied(h: History, n: nat, limit: int, required: set<int>, seen: History)
    requires Increasing(h) && n < MAX_PAGES && PAGE * (n + 1) <= |h| && seen == Last(h, PAGE * (n + 1))
    requires |seen| >= limit && required <= Ids(seen)
    ensures StopsEarly(h, limit, required)
  {
    EnoughIsMonotone(h, n + 1, limit, required);
  }

  datatype Turn = Failed(error: ScanError) | AtBoundary | Enough | More(before: int)

  /** What the paging loop knows after `n` full pages of `h`. */
  ghost predicate Progress(
      h: History, n: nat, limit: int, required: set<int>, collected: map<int, Message>, before: Option<int>, seen: History)
  {
    && PAGE * n <= |h|
    && before == Cursor(h, n)
    && seen == Last(h, PAGE * n)
    && Holds(collected, seen)
    && !(|seen| >= limit && required <= Ids(seen))
  }

  lemma PageIsHeld(h: History, n: nat, page: History, seen: History, collected: map<int, Message>, next: map<int, Message>)
    requires Increasing(h) && PAGE * n <= |h| && seen == Last(h, PAGE * n) && page == Slice(h, n) && Holds(collected, seen)
    requires forall id :: id in next ==> next[id].id == id
    requires forall id :: id in collected ==> id in next
    requires forall id :: id in next ==> next[id] in page || (id in collected && next[id] == collected[id])
    requires Increasing(page) ==> forall m :: m in page ==> m.id in next && next[m.id] == m
    ensures page + seen == Last(h, PAGE * n + |page|) && Holds(next, page + seen)
    ensures next.Keys == Ids(page + seen) && |next| == |page + seen|
  {
    SliceExtends(h, n);
    HoldsAfterPage(page, seen, collected, next);
    HoldsIds(next, page + seen);
  }

  lemma CursorAdvances(h: History, n: nat)
    requires Increasing(h) && PAGE * (n + 1) <= |h|
    ensures Cursor(h, n + 1).Some? && (Cursor(h, n).Some? ==> Cursor(h, n + 1).value < Cursor(h, n).value)
  {
  }

  /** What an honest page makes of the loop: it was the last one, */
  lemma LastItems(h: History, n: nat, page: History, seen: History, next: map<int, Message>, limit: int, required: set<int>)
    requires Increasing(h) && n < MAX_PAGES && PAGE * n <= |h| && seen == Last(h, PAGE * n) && page == Slice(h, n)
    requires !(|seen| >= limit && required <= Ids(seen)) && |page| < PAGE
    requires Holds(next, page + seen) && next.Keys == Ids(page + seen) && |next| == |page + seen|
    ensures Stopped(h, limit, required, next, true, page + seen)
  {
    StoppedAtBoundary(h, n, limit, required);
  }

  /** or it was enough, */
  lemma EnoughItems(h: History, n: nat, seen: History, next: map<int, Message>, limit: int, required: set<int>)
    requires Increasing(h) && n < MAX_PAGES && PAGE * (n + 1) <= |h| && seen == Last(h, PAGE * (n + 1))
    requires Holds(next, seen) && next.Keys == Ids(seen) && |next| == |seen|
    requires |next| >= limit && required <= next.Keys
    ensures Stopped(h, limit, required, next, false, seen)
  {
    StoppedSatisfied(h, n, limit, required, seen);
  }

  /** or the loop goes on. */
  lemma MoreItems(h: History, n: nat, seen: History, next: map<int, Message>, limit: int, required: set<int>)
    requires PAGE * (n + 1) <= |h| && seen == Last(h, PAGE * (n + 1))
    requires Holds(next, seen) && next.Keys == Ids(seen) && |next| == |seen|
    requires !(|next| >= limit && required <= next.Keys)
    ensures Progress(h, n + 1, limit, required, next, Cursor(h, n + 1), seen)
  {
  }

  /** The turn of a page that is not empty. */
  method TakeItems(
      page: seq<Message>, collected: map<int, Message>, before: Option<int>, limit: int, required: set<int>,
      ghost honest: bool, ghost h: History, ghost n: nat, ghost seen: History)
    returns (turn: Turn, next: map<int, Message>, ghost nowSeen: History)
    requires page != [] && forall id :: id in collected ==> collected[id].id == id
    requires honest ==> Increasing(h) && n < MAX_PAGES && Progress(h, n, limit, required, collected, before, seen)
    requires honest ==> page == Slice(h, n)
    ensures forall id :: id in next ==> next[id].id == id
    ensures turn.Failed? ==> turn.error.Protocol?
    ensures honest ==> !turn.Failed?
    ensures honest && turn.More? ==> Progress(h, n + 1, limit, required, next, Some(turn.before), nowSeen)
    ensures honest && (turn.AtBoundary? || turn.Enough?) ==>
              Stopped(h, limit, required, next, turn.AtBoundary?, nowSeen)
  {
    next := AddPage(collected, page);
    nowSeen := seen;
    if honest {
      PageIsHeld(h, n, page, seen, collected, next);
      nowSeen := page + seen;
    }
    if |page| < PAGE {
      if honest {
        LastItems(h, n, page, seen, next, limit, required);
      }
      return AtBoundary, next, nowSeen;
    }
    var nextBefore := OldestId(page);
    if honest {
      NextCursor(h, n, nextBefore);
      CursorAdvances(h, n);
    }
    if |next| >= limit && required <= next.Keys {
      if honest {
        EnoughItems(h, n, nowSeen, next, limit, required);
      }
      return Enough, next, nowSeen;
    }
    if before.Some? && nextBefore >= before.value {
      return Failed(Protocol("messages_cursor_did_not_advance")), next, nowSeen;
    }
    if honest {
      MoreItems(h, n, nowSeen, next, limit, required);
    }
    return More(nextBefore), next, nowSeen;
  }

  /** One turn of the paging loop: what it makes of one response. `honest` says that
      the response is the next slice of the history `h`. */
  method TakePage(
      response: Response, collected: map<int, Message>, before: Option<int>, limit: int, required: set<int>,
      ghost honest: bool, ghost h: History, ghost n: nat, ghost seen: History)
    returns (turn: Turn, next: map<int, Message>, ghost nowSeen: History)
    requires forall id :: id in collected ==> collected[id].id == id
    requires honest ==> Increasing(h) && n < MAX_PAGES && Progress(h, n, limit, required, collected, before, seen)
    requires honest ==> response == Payload(Slice(h, n))
    ensures forall id :: id in next ==> next[id].id == id
    ensures turn.Failed? ==> turn.error.Protocol?
    ensures honest ==> !turn.Failed?
    ensures honest && turn.More? ==> Progress(h, n + 1, limit, required, next, Some(turn.before), nowSeen)
    ensures honest && (turn.AtBoundary? || turn.Enough?) ==>
              Stopped(h, limit, required, next, turn.AtBoundary?, nowSeen)
  {
    next, nowSeen := collected, seen;
    if response.Rejected? {
      return Failed(Protocol(response.reason)), next, nowSeen;
    }
    var page := response.messages;
    if page == [] {
      if honest {
        SliceExtends(h, n);
        StoppedAtBoundary(h, n, limit, required);
        nowSeen := h;
        HoldsIds(next, h);
      }
      return AtBoundary, next, nowSeen;
    }
    turn, next, nowSeen := TakeItems(page, collected, before, limit, required, honest, h, n, seen);
  }

  /** The checks after the paging loop. */
  function Verdict(wantsBoundary: bool, reachedBoundary: bool, missing: set<int>, found: nat, limit: int, chosen: History)
    : Result<History, ScanError>
  {
    if wantsBoundary && !reachedBoundary then Failure(HistoryBoundaryBeyondScanLimit)
    else if !reachedBoundary && (missing != {} || found < limit) then Failure(RequiredMessagesBeyondScanLimit)
    else Success(chosen)
  }

  lemma VerdictIsRead(
      h: History, limit: int, required: set<int>, wantsBoundary: bool,
      collected: map<int, Message>, reachedBoundary: bool, seen: History)
    requires limit > 0 && Increasing(h)
    requires Stopped(h, limit, required, collected, reachedBoundary, seen)
    ensures Verdict(wantsBoundary, reachedBoundary, required - collected.Keys, |collected|, limit,
                    Select(seen, limit, required))
            == Read(h, limit, required, wantsBoundary)
  {
    if !reachedBoundary && |seen| >= limit && required <= Ids(seen) {
      SelectOfTail(h, |seen|, limit, required);
    }
    assert forall id :: id in required ==> id in Ids(seen) || id in required - Ids(seen);
  }

  /** The paging loop. */
  method Collect(server: Server, limit: int, required: set<int>, ghost snapshots: nat -> History)
    returns (collected: map<int, Message>, reachedBoundary: bool, failed: Option<ScanError>, ghost seen: History)
    requires limit > 0
    ensures forall id :: id in collected ==> collected[id].id == id
    ensures Serves(server, snapshots) ==>
              failed.None? && Stopped(snapshots(0), limit, required, collected, reachedBoundary, seen)
    ensures failed.Some? ==> failed.value.Protocol?
  {
    collected, reachedBoundary, failed, seen := map[], false, None, [];
    var before: Option<int> := None;
    ghost var honest, h := Serves(server, snapshots), snapshots(0);
    var requests := 0;
    var more := true;
    while more && requests < MAX_PAGES
      invariant 0 <= requests <= MAX_PAGES
      invariant forall id :: id in collected ==> collected[id].id == id
      invariant failed.Some? ==> failed.value.Protocol? && !more
      invariant honest ==> failed.None?
      invariant more ==> !reachedBoundary
      invariant honest && more ==> Progress(h, requests, limit, required, collected, before, seen)
      invariant honest && !more ==> Stopped(h, limit, required, collected, reachedBoundary, seen)
      decreases MAX_PAGES - requests, more
    {
      if honest {
        PageIsASlice(server, snapshots, requests);
      }
      var turn;
      turn, collected, seen := TakePage(
        server(requests, before), collected, before, limit, required, honest, h, requests, seen);
      more := turn.More?;
      reachedBoundary := turn.AtBoundary?;
      failed := if turn.Failed? then Some(turn.error) else None;
      before := if turn.More? then Some(turn.before) else before;
      requests := if turn.More? then requests + 1 else requests;
    }
    if honest && more {
      NoRequestLeft(server, snapshots, limit, required, collected, before, seen);
    }
  }

  lemma NoRequestLeft(
      server: Server, snapshots: nat -> History, limit: int, required: set<int>,
      collected: map<int, Message>, before: Option<int>, seen: History)
    requires Serves(server, snapshots)
    requires Progress(snapshots(0), MAX_PAGES, limit, required, collected, before, seen)
    ensures Stopped(snapshots(0), limit, required, collected, false, seen)
  {
    PageIsASlice(server, snapshots, MAX_PAGES);
    HoldsIds(collected, seen);
  }

  /** The reader. Whatever the server answers it returns or reports an error; a
      server that serves a history growing at its end is read as one snapshot of
      that history, the one of the first request. */
  method GetConversationMessages(
      server: Server, limit: int, required: set<int>, wantsBoundary: bool,
      ghost snapshots: nat -> History)
    returns (r: Result<History, ScanError>)
    ensures limit <= 0 <==> r == Failure(InvalidLimit)
    ensures r.Success? ==> Increasing(r.value)
    ensures limit > 0 && Serves(server, snapshots) ==> r == Read(snapshots(0), limit, required, wantsBoundary)
  {
    if limit <= 0 {
      return Failure(InvalidLimit);
    }
    var collected, reachedBoundary, failed, seen := Collect(server, limit, required, snapshots);
    if failed.Some? {
      return Failure(failed.value);
    }
    var chosen := Choose(collected, limit, required);
    r := Verdict(wantsBoundary, reachedBoundary, required - collected.Keys, |collected|, limit, chosen);
    if Serves(server, snapshots) {
      assert ServesAt(server, 0, snapshots(0), snapshots(0));
      ChosenIsRead(snapshots(0), limit, required, wantsBoundary, collected, reachedBoundary, seen, chosen);
    }
  }

  lemma ChosenIsRead(
      h: History, limit: int, required: set<int>, wantsBoundary: bool,
      collected: map<int, Message>, reachedBoundary: bool, seen: History, chosen: History)
    requires limit > 0 && Increasing(h) && Stopped(h, limit, required, collected, reachedBoundary, seen)
    requires forall part :: Increasing(part) && Holds(collected, part) ==> chosen == Select(part, limit, required)
    ensures Verdict(wantsBoundary, reachedBoundary, required - collected.Keys, |collected|, limit, chosen)
            == Read(h, limit, required, wantsBoundary)
  {
    assert Increasing(seen) && Holds(collected, seen);
    VerdictIsRead(h, limit, required, wantsBoundary, collected, reachedBoundary, seen);
  }
}
