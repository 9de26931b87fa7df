/** The listing of conversations, ordered by last activity, while its pages are read.
    Other people keep writing: a conversation with new activity moves to the front. */
module MovingListing {
  import opened Wrappers

  /** One line of the listing; `activity` is `None` when it is not an integer. */
  datatype Item = Item(id: int, inbox: int, activity: Option<int>)

  type Listing = seq<Item>

  /** The answer to a page request: a failure, or the items and the size of the listing. */
  datatype PageResponse = Refused(reason: string) | Page(items: Listing, allCount: int)

  type Pages = nat -> PageResponse

  function IdSet(l: Listing): set<int> {
    set i | i in l :: i.id
  }

  function IdSeq(l: Listing): seq<int> {
    seq(|l|, i requires 0 <= i < |l| => l[i].id)
  }

  /** The items from a position on, at most `size`. */
  function Window(l: Listing, offset: nat, size: nat): Listing {
    if offset >= |l| then []
    else if offset + size >= |l| then l[offset..]
    else l[offset..offset + size]
  }

  /** Page `p` (from 1) of a listing, `size` items per page. */
  function PageOf(l: Listing, p: nat, size: nat): Listing
    requires p >= 1
  {
    Window(l, (p - 1) * size, size)
  }

  predicate Good(i: Item, inbox: int) {
    i.id > 0 && i.inbox == inbox && i.activity.Some? && i.activity.value > 0
  }

  /** A listing as the server keeps it: each conversation once, latest activity first. */
  ghost predicate Sorted(l: Listing) {
    && (forall i :: 0 <= i < |l| ==> l[i].activity.Some?)
    && (forall i, j :: 0 <= i < j < |l| ==> l[i].id != l[j].id && l[i].activity.value >= l[j].activity.value)
  }

  /** The listing without some conversations. */
  function Without(l: Listing, ids: set<int>): Listing {
    if l == [] then []
    else if l[0].id in ids then Without(l[1..], ids)
    else [l[0]] + Without(l[1..], ids)
  }

  /** What may happen to the listing between two requests: some conversations, new
      ones or ones it had, come to the front. None leaves. */
  ghost predicate Moves(l: Listing, front: Listing, next: Listing) {
    next == front + Without(l, IdSet(front))
  }

  /** The listing at each page request and what moved after it. */
  datatype Motion = Motion(at: nat -> Listing, front: nat -> Listing)
  {
    ghost predicate Valid() {
      && (forall p: nat {:trigger Sorted(at(p))} :: Sorted(at(p)))
      && (forall p: nat, q: nat {:trigger Moves(at(p), front(p), at(q))} :: q == p + 1 ==> Moves(at(p), front(p), at(q)))
    }

    /** The conversation was there, and did not move, from the first request to the p-th. */
    ghost predicate Untouched(x: Item, p: nat)
      requires p >= 1
      decreases p
    {
      x in at(p) && (p > 1 ==> Untouched(x, p - 1) && x.id !in IdSet(front(p - 1)))
    }
  }

  ghost predicate Serves(pages: Pages, motion: Motion, size: nat)
    requires size >= 1
  {
    forall p: nat :: p >= 1 ==> pages(p) == Page(PageOf(motion.at(p), p, size), |motion.at(p)|)
  }

  // -------------------------------------------------------------------------
  // Positions
  // -------------------------------------------------------------------------

  lemma {:induction false} WithoutKeeps(l: Listing, ids: set<int>)
    ensures forall x :: x in Without(l, ids) <==> x in l && x.id !in ids
  {
    if l != [] {
      WithoutKeeps(l[1..], ids);
      assert l == [l[0]] + l[1..];
    }
  }

  lemma {:induction false} IdSetIsSmall(l: Listing)
    ensures |IdSet(l)| <= |l|
  {
    if l != [] {
      IdSetIsSmall(l[1..]);
      assert l == [l[0]] + l[1..];
      assert IdSet(l) == {l[0].id} + IdSet(l[1..]);
    }
  }

  lemma {:induction false} WithoutOfConcatenation(a: Listing, b: Listing, ids: set<int>)
    ensures Without(a + b, ids) == Without(a, ids) + Without(b, ids)
  {
    if a == [] {
      assert a + b == b;
    } else {
      assert (a + b)[1..] == a[1..] + b;
      WithoutOfConcatenation(a[1..], b, ids);
    }
  }

  /** Each id takes out at most one conversation. */
  lemma {:induction false} WithoutTakesFew(l: Listing, ids: set<int>)
    requires forall i, j :: 0 <= i < j < |l| ==> l[i].id != l[j].id
    ensures |Without(l, ids)| >= |l| - |ids|
  {
    if l != [] {
      if l[0].id in ids {
        var fewer := ids - {l[0].id};
        WithoutTakesFew(l[1..], fewer);
        SameWithout(l[1..], ids, fewer);
      } else {
        WithoutTakesFew(l[1..], ids);
      }
    }
  }

  lemma {:induction false} SameWithout(l: Listing, a: set<int>, b: set<int>)
    requires forall i :: 0 <= i < |l| ==> (l[i].id in a <==> l[i].id in b)
    ensures Without(l, a) == Without(l, b)
  {
    if l != [] {
      SameWithout(l[1..], a, b);
    }
  }

  /** A conversation that does not move is never pushed towards the front. */
  lemma PositionOnlyGrows(l: Listing, front: Listing, next: Listing, q: nat)
    requires Sorted(l) && Moves(l, front, next) && q < |l| && l[q].id !in IdSet(front)
    ensures exists r :: q <= r < |next| && next[r] == l[q]
  {
    var ids := IdSet(front);
    IdSetIsSmall(front);
    WithoutTakesFew(l[..q], ids);
    assert l == l[..q] + l[q..];
    WithoutOfConcatenation(l[..q], l[q..], ids);
    var r := |front| + |Without(l[..q], ids)|;
    assert next[r] == Without(l[q..], ids)[0] == l[q];
  }

  lemma NobodyLeaves(l: Listing, front: Listing, next: Listing)
    requires Moves(l, front, next)
    ensures IdSet(l) <= IdSet(next)
  {
    WithoutKeeps(l, IdSet(front));
    forall id | id in IdSet(l)
      ensures id in IdSet(next)
    {
      var x :| x in l && x.id == id;
      if id in IdSet(front) {
        var y :| y in front && y.id == id;
        assert y in next;
      } else {
        assert x in Without(l, IdSet(front));
        assert x in next;
      }
    }
  }

  lemma {:induction false} KeepsAll(l: Listing, ids: set<int>)
    requires forall i :: 0 <= i < |l| ==> l[i].id !in ids
    ensures Without(l, ids) == l
  {
    if l != [] {
      KeepsAll(l[1..], ids);
    }
  }

  lemma {:induction false} WithoutIsLater(l: Listing, ids: set<int>, j: nat)
    requires j < |Without(l, ids)|
    ensures exists i :: j <= i < |l| && l[i] == Without(l, ids)[j]
  {
    if l[0].id in ids {
      WithoutIsLater(l[1..], ids, j);
      var i :| j <= i < |l[1..]| && l[1..][i] == Without(l, ids)[j];
      assert l[i + 1] == Without(l, ids)[j];
    } else if j > 0 {
      WithoutIsLater(l[1..], ids, j - 1);
      var i :| j - 1 <= i < |l[1..]| && l[1..][i] == Without(l, ids)[j];
      assert l[i + 1] == Without(l, ids)[j];
    } else {
      assert l[0] == Without(l, ids)[j];
    }
  }

  lemma {:induction false} WithoutIsShorter(l: Listing, ids: set<int>)
    ensures |Without(l, ids)| <= |l|
  {
    if l != [] {
      WithoutIsShorter(l[1..], ids);
    }
  }

  /** When at most one conversation comes to the front, no position gets one newer than
      the position before it had. */
  lemma OneMovePushesOne(l: Listing, front: Listing, next: Listing, j: nat)
    requires Sorted(l) && Moves(l, front, next) && |front| <= 1 && 1 <= j < |next|
    ensures j <= |l| && next[j].activity.Some? && next[j].activity.value <= l[j - 1].activity.value
  {
    var ids := IdSet(front);
    WithoutIsShorter(l, ids);
    assert next[j] == Without(l, ids)[j - |front|];
    WithoutIsLater(l, ids, j - |front|);
    var i :| j - |front| <= i < |l| && l[i] == Without(l, ids)[j - |front|];
    assert i == j - 1 || l[j - 1].activity.value >= l[i].activity.value;
  }
}
