/** The scan of the listing, which the two listers share (`list_stalled_conversations`,
    `list_recent_conversations_with_messages`). */
module ConversationScan {
  import opened Wrappers
  import opened MovingListing

  datatype ScanError =
    | Rejected(reason: string)
    | InvalidConfiguration
    | InvalidScope
    | InvalidActivity
    | OrderUnexpected
    | ScanIncomplete

  /** What the scan remembers: the last activity, the ids listed, the ids inspected
      (in order) and the ids known from before. */
  datatype Memory = Memory(previous: Option<int>, listed: set<int>, inspected: seq<int>, before: set<int>)
  {
    function Seen(): set<int> {
      before + set id | id in inspected
    }

    ghost predicate Valid() {
      && (forall i, j :: 0 <= i < j < |inspected| ==> inspected[i] != inspected[j])
      && (forall i :: 0 <= i < |inspected| ==> inspected[i] !in before)
      && listed <= Seen()
    }
  }

  /** One item, before the cut: it is listed, and inspected if it was not. */
  function Note(m: Memory, i: Item): Memory {
    Memory(i.activity, m.listed + {i.id}, if i.id in m.Seen() then m.inspected else m.inspected + [i.id], m.before)
  }

  function NoteAll(m: Memory, items: Listing): Memory {
    if items == [] then m else Note(NoteAll(m, items[..|items| - 1]), items[|items| - 1])
  }

  /** Why a page is refused: an item that is not well formed, out of order, or whose own
      reads fail. */
  ghost predicate Explains(
      error: ScanError, items: Listing, inbox: int, inspects: int -> Option<string>, previous: Option<int>)
  {
    match error
    case InvalidScope | InvalidActivity => exists k :: 0 <= k < |items| && !Good(items[k], inbox)
    case Rejected(reason) => exists k :: 0 <= k < |items| && inspects(items[k].id) == Some(reason)
    case OrderUnexpected => exists k :: 0 <= k < |items| && OutOfOrder(items, k, previous)
    case InvalidConfiguration | ScanIncomplete => false
  }

  /** The page begins with a conversation newer than the last one before it. */
  ghost predicate Newer(items: Listing, previous: Option<int>) {
    items != [] && OutOfOrder(items, 0, previous)
  }

  ghost predicate OutOfOrder(items: Listing, k: nat, previous: Option<int>)
    requires k < |items|
  {
    var earlier := if k == 0 then previous else items[k - 1].activity;
    earlier.Some? && items[k].activity.Some? && items[k].activity.value > earlier.value
  }

  /** The first `n` items are well formed and recent. */
  ghost predicate RecentUpTo(items: Listing, n: nat, inbox: int, cut: real) {
    n <= |items| && forall k :: 0 <= k < n ==> Good(items[k], inbox) && items[k].activity.value as real >= cut
  }

  /** What the pass over a page did: it noted the first `n` items and stopped at the
      end of the page, or at an item before the cut. */
  ghost predicate Passed(items: Listing, n: nat, inbox: int, cut: real, m: Memory, next: Memory, reachedEnd: bool) {
    && RecentUpTo(items, n, inbox, cut)
    && next == NoteAll(m, items[..n])
    && (reachedEnd <==> n < |items|)
    && (n < |items| ==> Good(items[n], inbox) && (items[n].activity.value as real) < cut)
  }

  /** Every conversation inspected was read without a problem. */
  ghost predicate Clean(inspected: seq<int>, inspects: int -> Option<string>) {
    forall i :: 0 <= i < |inspected| ==> inspects(inspected[i]).None?
  }

  /** The pass over one page. `inspects` stands for the reads of each conversation,
      which may fail. */
  method ScanPage(items: Listing, inbox: int, cut: real, inspects: int -> Option<string>, m: Memory)
    returns (next: Memory, reachedEnd: bool, failed: Option<ScanError>, ghost n: nat)
    ensures failed.None? ==> Passed(items, n, inbox, cut, m, next, reachedEnd)
    ensures Clean(m.inspected, inspects) ==> Clean(next.inspected, inspects)
    ensures failed.Some? ==> Explains(failed.value, items, inbox, inspects, m.previous)
    ensures failed.None? ==> !Newer(items, m.previous)
  {
    next, reachedEnd, failed, n := m, false, None, 0;
    for i := 0 to |items|
      invariant failed.None? && !reachedEnd && n == i
      invariant RecentUpTo(items, i, inbox, cut)
      invariant next == NoteAll(m, items[..i])
      invariant Clean(m.inspected, inspects) ==> Clean(next.inspected, inspects)
      invariant next.previous == if i == 0 then m.previous else items[i - 1].activity
      invariant i > 0 ==> !Newer(items, m.previous)
    {
      var item := items[i];
      assert items[..i + 1][..|items[..i + 1]| - 1] == items[..i];
      if item.id <= 0 || item.inbox != inbox {
        failed := Some(InvalidScope);
        return;
      }
      if item.activity.None? || item.activity.value <= 0 {
        failed := Some(InvalidActivity);
        return;
      }
      if next.previous.Some? && item.activity.value > next.previous.value {
        assert OutOfOrder(items, i, m.previous);
        failed := Some(OrderUnexpected);
        return;
      }
      if (item.activity.value as real) < cut {
        reachedEnd := true;
        return;
      }
      if item.id !in next.Seen() {
        var problem := inspects(item.id);
        if problem.Some? {
          failed := Some(Rejected(problem.value));
          return;
        }
      }
      next, n := Note(next, item), n + 1;
    }
    assert items[..|items|] == items;
  }

  lemma {:induction false} NoteAllListed(m: Memory, items: Listing)
    ensures NoteAll(m, items).listed == m.listed + IdSet(items)
    ensures NoteAll(m, items).before == m.before
    ensures NoteAll(m, items).Seen() == m.Seen() + IdSet(items)
  {
    if items != [] {
      var init, last := items[..|items| - 1], items[|items| - 1];
      NoteAllListed(m, init);
      assert items == init + [last];
      assert IdSet(items) == IdSet(init) + {last.id};
      NoteSeen(NoteAll(m, init), last);
    }
  }

  lemma NoteSeen(m: Memory, i: Item)
    ensures Note(m, i).Seen() == m.Seen() + {i.id}
  {
    var next := Note(m, i);
    forall id
      ensures id in next.Seen() <==> id in m.Seen() + {i.id}
    {
      if id == i.id && i.id !in m.Seen() {
        assert next.inspected[|m.inspected|] == id;
      }
      if id in m.inspected {
        assert id in next.inspected;
      }
    }
  }

  lemma {:induction false} NoteAllValid(m: Memory, items: Listing)
    requires m.Valid()
    ensures NoteAll(m, items).Valid()
  {
    if items != [] {
      var init, last := items[..|items| - 1], items[|items| - 1];
      NoteAllValid(m, init);
      var mid := NoteAll(m, init);
      NoteSeen(mid, last);
      assert forall k :: 0 <= k < |mid.inspected| ==> mid.inspected[k] in mid.Seen();
    }
  }

  /** Conversations none of which is known are inspected one after the other. */
  lemma {:induction false} NoteAllFresh(m: Memory, items: Listing)
    requires forall i, j :: 0 <= i < j < |items| ==> items[i].id != items[j].id
    requires forall i :: 0 <= i < |items| ==> items[i].id !in m.Seen()
    ensures NoteAll(m, items).inspected == m.inspected + IdSeq(items)
  {
    if items != [] {
      var init, last := items[..|items| - 1], items[|items| - 1];
      NoteAllFresh(m, init);
      LastIsNotSeen(m, init, last);
      assert IdSeq(items) == IdSeq(init) + [last.id];
    }
  }

  lemma LastIsNotSeen(m: Memory, init: Listing, last: Item)
    requires last.id !in m.Seen() && forall i :: 0 <= i < |init| ==> init[i].id != last.id
    ensures last.id !in NoteAll(m, init).Seen()
  {
    NoteAllListed(m, init);
  }

  // -------------------------------------------------------------------------
  // A listing that moves
  // -------------------------------------------------------------------------

  /** Present from the first request to the p-th, never moved, with recent activity. */
  ghost predicate Expected(motion: Motion, x: Item, p: nat, cut: real)
    requires p >= 1
  {
    motion.Untouched(x, p) && x.activity.Some? && x.activity.value as real >= cut
  }

  /** Before the p-th request: every untouched recent conversation in front of the
      next page has been listed, and only conversations of the listing have. */
  ghost predicate Covers(motion: Motion, p: nat, offset: nat, cut: real, m: Memory)
    requires p >= 1
  {
    && m.listed <= IdSet(motion.at(p))
    && forall q {:trigger Expected(motion, motion.at(p)[q], p, cut)} | 0 <= q < offset && q < |motion.at(p)| :: Expected(motion, motion.at(p)[q], p, cut) ==>
         motion.at(p)[q].id in m.listed
  }

  /** Every untouched recent conversation has been listed. */
  ghost predicate Complete(motion: Motion, p: nat, cut: real, listed: set<int>)
    requires p >= 1
  {
    forall x :: Expected(motion, x, p, cut) ==> x.id in listed
  }

  lemma CoversAfterPage(motion: Motion, p: nat, offset: nat, size: nat, cut: real, m: Memory, n: nat, next: Memory)
    requires p >= 1 && motion.Valid() && Covers(motion, p, offset, cut, m)
    requires n <= |Window(motion.at(p), offset, size)|
    requires next.listed == NoteAll(m, Window(motion.at(p), offset, size)[..n]).listed
    ensures Covers(motion, p, offset + n, cut, next)
  {
    var l, page := motion.at(p), Window(motion.at(p), offset, size);
    NoteAllListed(m, page[..n]);
    assert IdSet(page[..n]) <= IdSet(l);
    forall q | offset <= q < offset + n && q < |l|
      ensures l[q].id in next.listed
    {
      assert page[..n][q - offset] == l[q];
      assert l[q] in page[..n];
    }
  }

  lemma CoversNextRequest(motion: Motion, p: nat, offset: nat, cut: real, m: Memory)
    requires p >= 1 && motion.Valid() && Covers(motion, p, offset, cut, m)
    ensures Covers(motion, p + 1, offset, cut, m)
  {
    var l, front, next := motion.at(p), motion.front(p), motion.at(p + 1);
    assert Moves(l, front, next);
    NobodyLeaves(l, front, next);
    assert Sorted(l) && Sorted(next);
    forall q | 0 <= q < offset && q < |next| && Expected(motion, next[q], p + 1, cut)
      ensures next[q].id in m.listed
    {
      var x := next[q];
      assert Expected(motion, x, p, cut);
      var k :| 0 <= k < |l| && l[k] == x;
      PositionOnlyGrows(l, front, next, k);
      var r :| k <= r < |next| && next[r] == l[k];
      assert r == q;
    }
  }

  /** The three ways to stop: at a conversation before the cut, ... */
  lemma CutCompletes(motion: Motion, p: nat, at: nat, cut: real, m: Memory)
    requires p >= 1 && motion.Valid() && Covers(motion, p, at, cut, m)
    requires at < |motion.at(p)| && motion.at(p)[at].activity.Some? && (motion.at(p)[at].activity.value as real) < cut
    ensures Complete(motion, p, cut, m.listed)
  {
    var l := motion.at(p);
    assert Sorted(l);
    forall x | Expected(motion, x, p, cut)
      ensures x.id in m.listed
    {
      var q :| 0 <= q < |l| && l[q] == x;
      assert q < at;
    }
  }

  /** ... at the end of the listing, ... */
  lemma EndCompletes(motion: Motion, p: nat, offset: nat, cut: real, m: Memory)
    requires p >= 1 && motion.Valid() && Covers(motion, p, offset, cut, m)
    requires offset >= |motion.at(p)|
    ensures Complete(motion, p, cut, m.listed)
  {
  }

  /** ... and when as many conversations are listed as the server counts. */
  lemma CountCompletes(motion: Motion, p: nat, offset: nat, cut: real, m: Memory)
    requires p >= 1 && motion.Valid() && Covers(motion, p, offset, cut, m)
    requires |m.listed| >= |motion.at(p)|
    ensures Complete(motion, p, cut, m.listed)
  {
    var ids := IdSet(motion.at(p));
    IdSetIsSmall(motion.at(p));
    SubsetOfSameSize(m.listed, ids);
    assert forall x :: x in motion.at(p) ==> x.id in ids;
  }

  lemma SubsetOfSameSize(a: set<int>, b: set<int>)
    requires a <= b && |a| >= |b|
    ensures a == b
  {
    assert b == a + (b - a);
  }

  // -------------------------------------------------------------------------
  // A listing that stays still
  // -------------------------------------------------------------------------

  ghost predicate AllRecent(l: Listing, cut: real) {
    forall i :: 0 <= i < |l| ==> l[i].activity.Some? && l[i].activity.value as real >= cut
  }

  /** Exactly the conversations of `l` have been inspected, in order, and all are recent. */
  ghost predicate Inspected(l: Listing, cut: real, m: Memory) {
    && m.before == {}
    && m.inspected == IdSeq(l) && m.listed == IdSet(l)
    && m.previous == (if l == [] then None else l[|l| - 1].activity)
    && AllRecent(l, cut)
  }

  ghost predicate InspectedFirst(l: Listing, n: nat, cut: real, m: Memory) {
    n <= |l| && Inspected(l[..n], cut, m)
  }

  /** Exactly the recent conversations, in order. */
  ghost predicate InspectedRecent(l: Listing, cut: real, inspected: seq<int>) {
    exists n :: 0 <= n <= |l| && inspected == IdSeq(l[..n])
      && forall i :: 0 <= i < |l| ==> l[i].activity.Some? && (i < n <==> l[i].activity.value as real >= cut)
  }

  lemma IdsOfConcatenation(a: Listing, b: Listing)
    ensures IdSet(a + b) == IdSet(a) + IdSet(b)
    ensures IdSeq(a + b) == IdSeq(a) + IdSeq(b)
  {
    assert forall i :: i in a + b <==> i in a || i in b;
  }

  lemma {:induction false} NoteAllPrevious(m: Memory, items: Listing)
    ensures NoteAll(m, items).previous == if items == [] then m.previous else items[|items| - 1].activity
  {
  }

  lemma InspectedMore(first: Listing, page: Listing, cut: real, m: Memory)
    requires Sorted(first + page) && Inspected(first, cut, m) && AllRecent(page, cut)
    ensures Inspected(first + page, cut, NoteAll(m, page))
  {
    NotYetSeen(first, page, cut, m);
    NoteAllFresh(m, page);
    NoteAllListed(m, page);
    NoteAllPrevious(m, page);
    IdsOfConcatenation(first, page);
    if page == [] {
      assert first + page == first;
    }
  }

  lemma NotYetSeen(first: Listing, page: Listing, cut: real, m: Memory)
    requires Sorted(first + page) && Inspected(first, cut, m)
    ensures forall i :: 0 <= i < |page| ==> page[i].id !in m.Seen()
    ensures forall i, j :: 0 <= i < j < |page| ==> page[i].id != page[j].id
  {
    var l := first + page;
    forall i | 0 <= i < |page|
      ensures page[i].id !in m.Seen()
    {
      assert page[i] == l[|first| + i];
      assert forall j :: 0 <= j < |first| ==> first[j] == l[j] && m.inspected[j] == first[j].id;
    }
    forall i, j | 0 <= i < j < |page|
      ensures page[i].id != page[j].id
    {
      assert page[i] == l[|first| + i] && page[j] == l[|first| + j];
    }
  }

  lemma WindowExtends(l: Listing, offset: nat, size: nat, n: nat)
    requires n <= |Window(l, offset, size)|
    ensures l[..Capped(offset + n, l)] == l[..Capped(offset, l)] + Window(l, offset, size)[..n]
  {
    if offset < |l| {
      assert offset + n <= |l|;
      assert Window(l, offset, size)[..n] == l[offset..offset + n];
    }
  }

  lemma ShortWindow(l: Listing, offset: nat, size: nat)
    ensures |Window(l, offset, size)| <= size
    ensures |Window(l, offset, size)| < size ==> offset + |Window(l, offset, size)| >= |l|
  {
  }

  // -------------------------------------------------------------------------
  // The loop over the pages
  // -------------------------------------------------------------------------

  ghost predicate Frozen(motion: Motion) {
    forall p: nat :: p >= 1 ==> motion.at(p) == motion.at(1)
  }

  function Capped(offset: nat, l: Listing): nat {
    if offset < |l| then offset else |l|
  }

  /** What is known before the p-th request, with a server that serves the motion. */
  ghost predicate Ready(motion: Motion, p: nat, offset: nat, cut: real, m: Memory)
    requires p >= 1
  {
    && Covers(motion, p, offset, cut, m)
    && (Frozen(motion) && m.before == {} ==> InspectedFirst(motion.at(1), Capped(offset, motion.at(1)), cut, m))
  }

  /** What is known when the scan stops after the p-th request. */
  ghost predicate Finished(motion: Motion, p: nat, cut: real, m: Memory)
    requires p >= 1
  {
    && Complete(motion, p, cut, m.listed)
    && (Frozen(motion) && m.before == {} ==> InspectedRecent(motion.at(1), cut, m.inspected))
  }

  lemma ReadyAtFirst(motion: Motion, cut: real, before: set<int>)
    requires motion.Valid()
    ensures Ready(motion, 1, 0, cut, Memory(None, {}, [], before))
  {
    assert motion.at(1)[..0] == [];
  }

  /** The first `n` items of a page of a still listing have been noted. */
  lemma InspectedAfterItems(l: Listing, offset: nat, size: nat, cut: real, m: Memory, n: nat)
    requires Sorted(l) && InspectedFirst(l, Capped(offset, l), cut, m)
    requires n <= |Window(l, offset, size)| && AllRecent(Window(l, offset, size)[..n], cut)
    ensures InspectedFirst(l, Capped(offset + n, l), cut, NoteAll(m, Window(l, offset, size)[..n]))
  {
    WindowExtends(l, offset, size, n);
    assert Sorted(l[..Capped(offset + n, l)]);
    InspectedMore(l[..Capped(offset, l)], Window(l, offset, size)[..n], cut, m);
  }

  /** The first items of the p-th page have been noted. */
  lemma ReadyAfterItems(motion: Motion, p: nat, offset: nat, size: nat, cut: real, m: Memory, page: Listing, next: Memory)
    requires p >= 1 && motion.Valid() && Ready(motion, p, offset, cut, m)
    requires page <= Window(motion.at(p), offset, size) && AllRecent(page, cut)
    requires next == NoteAll(m, page)
    ensures Ready(motion, p, offset + |page|, cut, next)
  {
    assert page == Window(motion.at(p), offset, size)[..|page|];
    CoversAfterPage(motion, p, offset, size, cut, m, |page|, next);
    if Frozen(motion) && next.before == {} {
      assert motion.at(p) == motion.at(1) && Sorted(motion.at(1));
      StillInspected(motion.at(1), offset, size, cut, m, page, next);
    }
  }

  lemma StillInspected(l: Listing, offset: nat, size: nat, cut: real, m: Memory, page: Listing, next: Memory)
    requires Sorted(l) && next.before == {}
    requires m.before == {} ==> InspectedFirst(l, Capped(offset, l), cut, m)
    requires page <= Window(l, offset, size) && AllRecent(page, cut) && next == NoteAll(m, page)
    ensures InspectedFirst(l, Capped(offset + |page|, l), cut, next)
  {
    assert page == Window(l, offset, size)[..|page|];
    NoteAllListed(m, page);
    InspectedAfterItems(l, offset, size, cut, m, |page|);
  }

  lemma FinishedAtCut(motion: Motion, p: nat, at: nat, cut: real, m: Memory)
    requires p >= 1 && motion.Valid() && Ready(motion, p, at, cut, m)
    requires at < |motion.at(p)| && motion.at(p)[at].activity.Some? && (motion.at(p)[at].activity.value as real) < cut
    ensures Finished(motion, p, cut, m)
  {
    CutCompletes(motion, p, at, cut, m);
    if Frozen(motion) && m.before == {} {
      var l := motion.at(1);
      assert motion.at(p) == l && Sorted(l);
      assert m.inspected == IdSeq(l[..at]);
    }
  }

  lemma FinishedAtEnd(motion: Motion, p: nat, offset: nat, cut: real, m: Memory)
    requires p >= 1 && motion.Valid() && Ready(motion, p, offset, cut, m)
    requires offset >= |motion.at(p)| || |m.listed| >= |motion.at(p)|
    ensures Finished(motion, p, cut, m)
  {
    if offset >= |motion.at(p)| {
      EndCompletes(motion, p, offset, cut, m);
    } else {
      CountCompletes(motion, p, offset, cut, m);
    }
    if Frozen(motion) && m.before == {} {
      var l := motion.at(1);
      assert motion.at(p) == l;
      IdSetIsSmall(l[..Capped(offset, l)]);
      assert Capped(offset, l) == |l|;
      assert m.inspected == IdSeq(l[..|l|]);
    }
  }

  lemma ReadyForNext(motion: Motion, p: nat, offset: nat, cut: real, m: Memory)
    requires p >= 1 && motion.Valid() && Ready(motion, p, offset, cut, m)
    ensures Ready(motion, p + 1, offset, cut, m)
  {
    CoversNextRequest(motion, p, offset, cut, m);
  }

  /** Every conversation of the listing is well formed and its reads succeed. */
  ghost predicate Wholesome(l: Listing, inbox: int, inspects: int -> Option<string>) {
    forall i :: 0 <= i < |l| ==> Good(l[i], inbox) && inspects(l[i].id).None?
  }

  lemma BeyondTheEnd(motion: Motion, p: nat, offset: nat, further: nat, cut: real, m: Memory)
    requires p >= 1 && motion.Valid() && Ready(motion, p, offset, cut, m)
    requires |motion.at(p)| <= offset <= further
    ensures Ready(motion, p, further, cut, m)
  {
  }

  /** On a listing that stays still, fewer listed than counted means that some are left. */
  lemma SomeAreLeft(l: Listing, offset: nat, cut: real, m: Memory)
    requires Sorted(l) && InspectedFirst(l, Capped(offset, l), cut, m) && |m.listed| < |l|
    ensures offset < |l|
  {
    IdSetIsLarge(l[..Capped(offset, l)]);
  }

  lemma {:induction false} IdSetIsLarge(l: Listing)
    requires forall i, j :: 0 <= i < j < |l| ==> l[i].id != l[j].id
    ensures |IdSet(l)| == |l|
  {
    if l != [] {
      IdSetIsLarge(l[1..]);
      assert l == [l[0]] + l[1..];
      assert IdSet(l) == {l[0].id} + IdSet(l[1..]);
      assert l[0].id !in IdSet(l[1..]);
    }
  }

  lemma PageEnded(motion: Motion, p: nat, offset: nat, further: nat, cut: real, next: Memory)
    requires p >= 1 && motion.Valid() && Ready(motion, p, offset, cut, next)
    requires offset <= further && (offset < further ==> offset >= |motion.at(p)|)
    ensures Outcome(motion, p, further, cut, next, |next.listed| >= |motion.at(p)|)
  {
    var l := motion.at(p);
    if |next.listed| >= |l| {
      FinishedAtEnd(motion, p, offset, cut, next);
    } else {
      if Frozen(motion) && next.before == {} {
        assert l == motion.at(1) && Sorted(l);
        SomeAreLeft(l, offset, cut, next);
      }
      if offset < further {
        BeyondTheEnd(motion, p, offset, further, cut, next);
      }
      ReadyForNext(motion, p, further, cut, next);
    }
  }

  /** What is known after the p-th page: the scan ends there, or goes on. */
  ghost predicate Outcome(motion: Motion, p: nat, further: nat, cut: real, next: Memory, ends: bool)
    requires p >= 1
  {
    if ends then Finished(motion, p, cut, next)
    else Ready(motion, p + 1, further, cut, next)
         && (Frozen(motion) && next.before == {} ==> further < |motion.at(1)|)
  }

  lemma PageRead(motion: Motion, p: nat, offset: nat, size: nat, cut: real, m: Memory, items: Listing, next: Memory)
    requires p >= 1 && motion.Valid() && Ready(motion, p, offset, cut, m) && size >= 1
    requires items == Window(motion.at(p), offset, size) && next == NoteAll(m, items) && AllRecent(items, cut)
    ensures Outcome(motion, p, offset + size, cut, next, |next.listed| >= |motion.at(p)|)
  {
    ShortWindow(motion.at(p), offset, size);
    ReadyAfterItems(motion, p, offset, size, cut, m, items, next);
    PageEnded(motion, p, offset + |items|, offset + size, cut, next);
  }

  lemma PageCut(motion: Motion, p: nat, offset: nat, size: nat, cut: real, m: Memory, items: Listing, n: nat, next: Memory)
    requires p >= 1 && motion.Valid() && Ready(motion, p, offset, cut, m)
    requires items == Window(motion.at(p), offset, size)
    requires n < |items| && next == NoteAll(m, items[..n]) && AllRecent(items[..n], cut)
    requires items[n].activity.Some? && (items[n].activity.value as real) < cut
    ensures Finished(motion, p, cut, next)
  {
    ReadyAfterItems(motion, p, offset, size, cut, m, items[..n], next);
    assert items[n] == motion.at(p)[offset + n];
    FinishedAtCut(motion, p, offset + n, cut, next);
  }

  lemma AfterThePass(
      motion: Motion, p: nat, offset: nat, size: nat, inbox: int, cut: real, m: Memory, items: Listing, n: nat,
      next: Memory, reachedEnd: bool)
    requires p >= 1 && motion.Valid() && Ready(motion, p, offset, cut, m) && size >= 1
    requires items == Window(motion.at(p), offset, size) && Passed(items, n, inbox, cut, m, next, reachedEnd)
    ensures Outcome(motion, p, offset + size, cut, next, reachedEnd || |next.listed| >= |motion.at(p)|)
  {
    if reachedEnd {
      PageCut(motion, p, offset, size, cut, m, items, n, next);
    } else {
      assert items[..n] == items;
      PageRead(motion, p, offset, size, cut, m, items, next);
    }
  }

  /** A page of a sorted, wholesome listing is refused only for beginning with a
      conversation newer than the last one before it. */
  lemma OnlyTheFirstIsNewer(
      l: Listing, offset: nat, size: nat, inbox: int, inspects: int -> Option<string>, items: Listing,
      previous: Option<int>, error: ScanError)
    requires Sorted(l) && Wholesome(l, inbox, inspects) && items == Window(l, offset, size)
    requires Explains(error, items, inbox, inspects, previous)
    ensures error == OrderUnexpected && Newer(items, previous)
  {
    forall k | 0 <= k < |items|
      ensures Good(items[k], inbox) && inspects(items[k].id).None? && (k > 0 ==> !OutOfOrder(items, k, previous))
    {
      assert items[k] == l[offset + k];
      assert k > 0 ==> items[k - 1] == l[offset + k - 1];
    }
  }

  /** On a still listing no page begins with a newer conversation. */
  lemma StillIsNotNewer(motion: Motion, p: nat, offset: nat, size: nat, cut: real, m: Memory)
    requires p >= 1 && motion.Valid() && Ready(motion, p, offset, cut, m) && Frozen(motion) && m.before == {}
    ensures !Newer(Window(motion.at(p), offset, size), m.previous)
  {
    var l := motion.at(1);
    assert motion.at(p) == l && Sorted(l);
    if offset < |l| {
      assert InspectedFirst(l, offset, cut, m);
      assert offset > 0 ==> l[..offset][offset - 1] == l[offset - 1];
    }
  }

  datatype Turn = Fails(error: ScanError) | Ends | Continues

  /** What the scan needs to go on after the page `p` on a still, wholesome listing. */
  ghost predicate Smooth(motion: Motion, inbox: int, inspects: int -> Option<string>, before: set<int>) {
    Frozen(motion) && before == {} && Wholesome(motion.at(1), inbox, inspects)
  }

  /** The page was noted whole: the next one is compared with its last conversation. */
  predicate GoesOnAfter(items: Listing, next: Memory) {
    items != [] && next.previous == items[|items| - 1].activity
  }

  /** One turn of the page loop. `honest` says that the response is the `p`-th page of
      the listing as it is at that request. */
  method TakePage(
      response: PageResponse, inbox: int, cut: real, inspects: int -> Option<string>, m: Memory,
      ghost honest: bool, ghost motion: Motion, ghost p: nat, ghost offset: nat, ghost size: nat)
    returns (turn: Turn, next: Memory)
    requires m.Valid() && size >= 1 && p >= 1
    requires honest ==> motion.Valid() && Ready(motion, p, offset, cut, m)
    requires honest ==> response == Page(Window(motion.at(p), offset, size), |motion.at(p)|)
    ensures next.Valid() && next.before == m.before
    ensures Clean(m.inspected, inspects) ==> Clean(next.inspected, inspects)
    ensures turn.Fails? ==> turn.error != ScanIncomplete && turn.error != InvalidConfiguration
    ensures honest && !turn.Fails? ==> Outcome(motion, p, offset + size, cut, next, turn.Ends?)
    ensures honest && !turn.Fails? ==> !Newer(Window(motion.at(p), offset, size), m.previous)
    ensures honest && turn.Fails? && Wholesome(motion.at(p), inbox, inspects) ==>
              turn.error == OrderUnexpected && Newer(Window(motion.at(p), offset, size), m.previous)
    ensures honest && turn.Continues? ==> GoesOnAfter(Window(motion.at(p), offset, size), next)
  {
    if response.Refused? {
      return Fails(Rejected(response.reason)), m;
    }
    var items := response.items;
    if items == [] {
      if honest {
        FinishedAtEnd(motion, p, offset, cut, m);
      }
      return Ends, m;
    }
    var reachedEnd, failed;
    ghost var n;
    next, reachedEnd, failed, n := ScanPage(items, inbox, cut, inspects, m);
    if failed.Some? {
      if honest && Wholesome(motion.at(p), inbox, inspects) {
        assert Sorted(motion.at(p));
        OnlyTheFirstIsNewer(motion.at(p), offset, size, inbox, inspects, items, m.previous, failed.value);
      }
      return Fails(failed.value), m;
    }
    NoteAllPrevious(m, items[..n]);
    NoteAllValid(m, items[..n]);
    NoteAllListed(m, items[..n]);
    if honest {
      AfterThePass(motion, p, offset, size, inbox, cut, m, items, n, next, reachedEnd);
    }
    turn := if reachedEnd || |next.listed| >= response.allCount then Ends else Continues;
  }

  lemma PageIsAWindow(pages: Pages, motion: Motion, size: nat, p: nat, offset: nat)
    requires size >= 1 && Serves(pages, motion, size) && p >= 1 && offset == (p - 1) * size
    ensures pages(p) == Page(Window(motion.at(p), offset, size), |motion.at(p)|)
  {
  }

  /** The answer when the pages of a still, wholesome listing are spent: there is more
      of it, and all that was read is recent. */
  ghost predicate MoreThan(l: Listing, count: nat, cut: real) {
    && count < |l|
    && forall i :: 0 <= i < count ==> l[i].activity.Some? && l[i].activity.value as real >= cut
  }

  /** At its request the page `p` begins with a conversation newer than the last one of
      the page before, as that one was at its request. */
  ghost predicate Jumps(motion: Motion, p: nat, size: nat)
    requires p >= 2
  {
    var before, page := PageOf(motion.at(p - 1), p - 1, size), PageOf(motion.at(p), p, size);
    before != [] && Newer(page, before[|before| - 1].activity)
  }

  ghost predicate NoneJumps(motion: Motion, read: nat, size: nat) {
    forall p: nat :: 2 <= p <= read ==> !Jumps(motion, p, size)
  }

  /** Every listing that is served is well formed, and the reads of its conversations succeed. */
  ghost predicate AlwaysWholesome(motion: Motion, inbox: int, inspects: int -> Option<string>) {
    forall p: nat :: p >= 1 ==> Wholesome(motion.at(p), inbox, inspects)
  }

  /** Before the request `p`: the activity to compare with is that of the page before. */
  ghost predicate Compares(motion: Motion, p: nat, size: nat, m: Memory)
    requires p >= 1
  {
    if p == 1 then m.previous.None? else GoesOnAfter(PageOf(motion.at(p - 1), p - 1, size), m)
  }

  lemma JumpsMeans(motion: Motion, p: nat, offset: nat, size: nat, m: Memory)
    requires p >= 1 && offset == (p - 1) * size && Compares(motion, p, size, m)
    ensures Newer(Window(motion.at(p), offset, size), m.previous) <==> p >= 2 && Jumps(motion, p, size)
  {
  }

  /** Where the scan is before its request `p`. */
  ghost predicate Underway(motion: Motion, p: nat, offset: nat, size: nat, cut: real, m: Memory)
    requires p >= 1
  {
    Ready(motion, p, offset, cut, m) && Compares(motion, p, size, m) && NoneJumps(motion, p - 1, size)
  }

  lemma OneMoreRead(motion: Motion, p: nat, size: nat)
    requires p >= 1 && NoneJumps(motion, p - 1, size)
    ensures NoneJumps(motion, p, size) <==> !(p >= 2 && Jumps(motion, p, size))
  {
  }

  lemma ScanBegins(motion: Motion, size: nat, cut: real, before: set<int>)
    requires motion.Valid()
    ensures Underway(motion, 1, 0, size, cut, Memory(None, {}, [], before))
  {
    ReadyAtFirst(motion, cut, before);
  }

  /** One request and its turn. */
  method ReadPage(
      pages: Pages, inbox: int, cut: real, inspects: int -> Option<string>, m: Memory, p: nat,
      ghost motion: Motion, ghost offset: nat, ghost size: nat)
    returns (turn: Turn, next: Memory)
    requires m.Valid() && size >= 1 && p >= 1 && offset == (p - 1) * size
    requires motion.Valid() && Serves(pages, motion, size) ==>
               Underway(motion, p, offset, size, cut, m)
    ensures next.Valid() && next.before == m.before
    ensures Clean(m.inspected, inspects) ==> Clean(next.inspected, inspects)
    ensures turn.Fails? ==> turn.error != ScanIncomplete && turn.error != InvalidConfiguration
    ensures motion.Valid() && Serves(pages, motion, size) && !turn.Fails? ==>
              NoneJumps(motion, p, size) && (turn.Ends? ==> Finished(motion, p, cut, next))
    ensures motion.Valid() && Serves(pages, motion, size) && turn.Continues? ==>
              && Underway(motion, p + 1, offset + size, size, cut, next)
              && (Frozen(motion) && m.before == {} ==> offset + size < |motion.at(1)|)
    ensures motion.Valid() && Serves(pages, motion, size) && turn.Fails? && Wholesome(motion.at(p), inbox, inspects) ==>
              turn.error == OrderUnexpected && !NoneJumps(motion, p, size)
    ensures motion.Valid() && Serves(pages, motion, size) && Smooth(motion, inbox, inspects, m.before) ==> !turn.Fails?
  {
    ghost var honest := motion.Valid() && Serves(pages, motion, size);
    if honest {
      PageIsAWindow(pages, motion, size, p, offset);
      JumpsMeans(motion, p, offset, size, m);
      OneMoreRead(motion, p, size);
      if Smooth(motion, inbox, inspects, m.before) {
        StillIsWholesome(motion, p, inbox, inspects);
        StillIsNotNewer(motion, p, offset, size, cut, m);
      }
    }
    turn, next := TakePage(pages(p), inbox, cut, inspects, m, honest, motion, p, offset, size);
  }

  /** The page loop both listers share. It returns the ids it inspected, in order. A
      server that serves a moving listing: nothing untouched and recent is left out,
      and nothing is inspected twice. On a listing that stays still it inspects
      exactly the recent conversations, in order, and it gives up exactly when they
      do not fit in the pages it may read. On a wholesome listing that moves it fails,
      short of its pages, exactly when a page begins with a newer conversation. */
  method ScanListing(
      pages: Pages, inbox: int, cut: real, maxPages: nat, inspects: int -> Option<string>, before: set<int>,
      ghost motion: Motion, ghost size: nat)
    returns (r: Result<seq<int>, ScanError>, ghost read: nat)
    requires 1 <= maxPages && size >= 1
    ensures r.Success? ==> forall i, j :: 0 <= i < j < |r.value| ==> r.value[i] != r.value[j]
    ensures r.Success? ==> forall i :: 0 <= i < |r.value| ==> r.value[i] !in before
    ensures r.Success? ==> Clean(r.value, inspects)
    ensures r.Failure? ==> r.error != InvalidConfiguration
    ensures 1 <= read <= maxPages
    ensures r.Success? && motion.Valid() && Serves(pages, motion, size) ==>
              forall x :: motion.Untouched(x, read) && x.activity.Some? && x.activity.value as real >= cut ==>
                x.id in before || x.id in r.value
    ensures r.Success? && motion.Valid() && Serves(pages, motion, size) && Frozen(motion) && before == {} ==>
              InspectedRecent(motion.at(1), cut, r.value)
    ensures r.Failure? && motion.Valid() && Serves(pages, motion, size) && Smooth(motion, inbox, inspects, before) ==>
              r == Failure(ScanIncomplete) && MoreThan(motion.at(1), maxPages * size, cut)
    ensures motion.Valid() && Serves(pages, motion, size) && AlwaysWholesome(motion, inbox, inspects) ==>
              && (r == Failure(OrderUnexpected) <==> !NoneJumps(motion, read, size))
              && (r.Failure? && r.error != OrderUnexpected ==> r.error == ScanIncomplete && read == maxPages)
  {
    var m := Memory(None, {}, [], before);
    ghost var honest := motion.Valid() && Serves(pages, motion, size);
    ghost var offset := 0;
    ghost var smooth := Smooth(motion, inbox, inspects, before);
    read := 1;
    if honest {
      ScanBegins(motion, size, cut, before);
    }
    var p := 1;
    while p <= maxPages
      invariant 1 <= p <= maxPages + 1 && 1 <= read <= maxPages && (p > 1 ==> read == p - 1)
      invariant m.Valid() && m.before == before && Clean(m.inspected, inspects)
      invariant offset == (p - 1) * size
      invariant honest ==> Underway(motion, p, offset, size, cut, m)
      invariant honest && smooth && p > 1 ==> offset < |motion.at(1)|
    {
      read := p;
      var turn, next := ReadPage(pages, inbox, cut, inspects, m, p, motion, offset, size);
      m := next;
      if turn.Fails? {
        return Failure(turn.error), read;
      }
      if turn.Ends? {
        if honest {
          FinishedMeans(motion, p, cut, m);
        }
        return Success(m.inspected), read;
      }
      offset, p := offset + size, p + 1;
    }
    if honest && smooth {
      SpentMeans(motion, p, offset, cut, m);
    }
    return Failure(ScanIncomplete), read;
  }

  lemma StillIsWholesome(motion: Motion, p: nat, inbox: int, inspects: int -> Option<string>)
    requires p >= 1 && Frozen(motion) && Wholesome(motion.at(1), inbox, inspects)
    ensures Wholesome(motion.at(p), inbox, inspects)
  {
    assert motion.at(p) == motion.at(1);
  }

  lemma FinishedMeans(motion: Motion, p: nat, cut: real, m: Memory)
    requires p >= 1 && motion.Valid() && m.Valid() && Finished(motion, p, cut, m)
    ensures forall x :: motion.Untouched(x, p) && x.activity.Some? && x.activity.value as real >= cut ==>
              x.id in m.before || x.id in m.inspected
    ensures Frozen(motion) && m.before == {} ==> InspectedRecent(motion.at(1), cut, m.inspected)
  {
    forall x | motion.Untouched(x, p) && x.activity.Some? && x.activity.value as real >= cut
      ensures x.id in m.before || x.id in m.inspected
    {
      assert Expected(motion, x, p, cut);
      assert m.listed <= m.Seen();
    }
  }

  lemma SpentMeans(motion: Motion, p: nat, offset: nat, cut: real, m: Memory)
    requires p >= 1 && motion.Valid() && Ready(motion, p, offset, cut, m)
    requires Frozen(motion) && m.before == {} && offset < |motion.at(1)|
    ensures MoreThan(motion.at(1), offset, cut)
  {
  }
}
