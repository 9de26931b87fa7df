/** When the order cuts a scan: when several conversations come to the front of the
    listing between two of its requests, and never when at most one does. */
module ScanOrder {
  import opened Wrappers
  import opened MovingListing
  import opened ConversationScan

  /** A scan is never cut by the order when at most one conversation comes to the front
      between its requests. */
  lemma OneAtATimeNeverJumps(motion: Motion, p: nat, size: nat)
    requires p >= 2 && size >= 1 && motion.Valid() && |motion.front(p - 1)| <= 1
    ensures !Jumps(motion, p, size)
  {
    var l, next, offset := motion.at(p - 1), motion.at(p), (p - 2) * size;
    assert Moves(l, motion.front(p - 1), next) && Sorted(l);
    NotNewer(l, motion.front(p - 1), next, offset, size);
    NextOffset(p, size);
  }

  lemma NextOffset(p: nat, size: nat)
    requires p >= 2
    ensures (p - 1) * size == (p - 2) * size + size
  {
  }

  /** Two pages in a row, the second one after at most one conversation came to the front. */
  lemma NotNewer(l: Listing, front: Listing, next: Listing, offset: nat, size: nat)
    requires size >= 1 && Sorted(l) && Moves(l, front, next) && |front| <= 1
    ensures var before := Window(l, offset, size);
            before != [] ==> !Newer(Window(next, offset + size, size), before[|before| - 1].activity)
  {
    if Window(l, offset, size) != [] && Window(next, offset + size, size) != [] {
      FirstAndLast(l, next, offset, size);
      OneMovePushesOne(l, front, next, offset + size);
    }
  }

  /** At most one conversation comes to the front between two requests. */
  ghost predicate OneAtATime(motion: Motion) {
    forall q: nat :: |motion.front(q)| <= 1
  }

  /** Then only the number of its pages can cut it. */
  lemma OneAtATimeIsInOrder(motion: Motion, read: nat, size: nat)
    requires size >= 1 && motion.Valid() && OneAtATime(motion)
    ensures NoneJumps(motion, read, size)
  {
    forall p: nat | 2 <= p <= read
      ensures !Jumps(motion, p, size)
    {
      OneAtATimeNeverJumps(motion, p, size);
    }
  }

  /** The first of a page is the next position after the last of a full page. */
  lemma FirstAndLast(l: Listing, next: Listing, offset: nat, size: nat)
    requires size >= 1 && Window(l, offset, size) != [] && Window(next, offset + size, size) != []
    ensures var before, j := Window(l, offset, size), offset + size;
            && 1 <= j < |next| && Window(next, j, size)[0] == next[j]
            && (j <= |l| ==> before[|before| - 1] == l[j - 1])
  {
  }

  // Two at once are enough: pages of one conversation each.

  const QUIET := [Item(1, 1, Some(10)), Item(2, 1, Some(5))]
  const ARRIVED := [Item(4, 1, Some(30)), Item(3, 1, Some(20))]
  const TWO_AT_ONCE := Motion(
    (p: nat) => if p <= 1 then QUIET else ARRIVED + QUIET,
    (p: nat) => if p == 1 then ARRIVED else [])

  lemma NothingTakenOut()
    ensures Without(QUIET, IdSet(ARRIVED)) == QUIET
    ensures Without(QUIET, IdSet([])) == QUIET && Without(ARRIVED + QUIET, IdSet([])) == ARRIVED + QUIET
  {
    KeepsAll(QUIET, IdSet(ARRIVED));
    KeepsAll(QUIET, IdSet([]));
    KeepsAll(ARRIVED + QUIET, IdSet([]));
  }

  lemma BothAreSorted()
    ensures Sorted(QUIET) && Sorted(ARRIVED + QUIET)
  {
  }

  lemma TwoAtOnceMoves()
    ensures TWO_AT_ONCE.Valid()
  {
    BothAreSorted();
    NothingTakenOut();
    assert Moves(QUIET, [], QUIET) && Moves(QUIET, ARRIVED, ARRIVED + QUIET) && Moves(ARRIVED + QUIET, [], ARRIVED + QUIET);
  }

  /** The second page begins with the older of the two that arrived, newer than the
      conversation the first page ended with: the scan fails with the order. */
  lemma TwoAtOnceJump()
    ensures TWO_AT_ONCE.Valid() && AlwaysWholesome(TWO_AT_ONCE, 1, (id: int) => None)
    ensures Jumps(TWO_AT_ONCE, 2, 1)
  {
    TwoAtOnceMoves();
    assert PageOf(QUIET, 1, 1) == [QUIET[0]];
    assert PageOf(ARRIVED + QUIET, 2, 1) == [ARRIVED[1]];
  }
}
