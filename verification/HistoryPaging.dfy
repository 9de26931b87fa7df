/** Pages of the merged history of a lead, cut by key (`_Moment.key`, `encode_cursor`,
    `decode_cursor` and the paging of `build_history`). */
module HistoryPaging {
  import opened Wrappers
  import Text

  // -------------------------------------------------------------------------
  // Times
  // -------------------------------------------------------------------------

  /** A time in UTC, to the microsecond. */
  datatype Time = Time(year: int, month: int, day: int, hour: int, minute: int, second: int, micro: int)
  {
    predicate Valid() {
      && 1 <= year <= 9999 && 1 <= month <= 12 && 1 <= day <= 31
      && 0 <= hour < 24 && 0 <= minute < 60 && 0 <= second < 60 && 0 <= micro < 1_000_000
    }
  }

  /** The order of times, by their fields from the year down. */
  predicate Before(t: Time, u: Time) {
    if t.year != u.year then t.year < u.year
    else if t.month != u.month then t.month < u.month
    else if t.day != u.day then t.day < u.day
    else if t.hour != u.hour then t.hour < u.hour
    else if t.minute != u.minute then t.minute < u.minute
    else if t.second != u.second then t.second < u.second
    else t.micro < u.micro
  }

  function Pow10(w: nat): nat {
    if w == 0 then 1 else 10 * Pow10(w - 1)
  }

  /** A numeral of exactly `w` digits. */
  function Pad(n: nat, w: nat): (s: string)
    ensures |s| == w
  {
    if w == 0 then "" else Pad(n / 10, w - 1) + [('0' as int + n % 10) as char]
  }

  /** `isoformat` of a time in UTC: the fraction is left out when it is zero. */
  function Iso(t: Time): string
    requires t.Valid()
  {
    Pad(t.year, 4) + ("-" + (Pad(t.month, 2) + ("-" + (Pad(t.day, 2) + ("T" + (Pad(t.hour, 2) + (":" + (Pad(t.minute, 2)
    + (":" + (Pad(t.second, 2) + Fraction(t.micro)))))))))))
  }

  function Fraction(micro: int): string
    requires 0 <= micro < 1_000_000
  {
    if micro == 0 then "+00:00" else "." + (Pad(micro, 6) + "+00:00")
  }

  lemma {:induction false} PadKeepsOrder(a: nat, b: nat, w: nat)
    requires a < Pow10(w) && b < Pow10(w)
    ensures Text.TextLess(Pad(a, w), Pad(b, w)) <==> a < b
    ensures Pad(a, w) == Pad(b, w) <==> a == b
  {
    if w > 0 {
      PadKeepsOrder(a / 10, b / 10, w - 1);
      var x, y := [('0' as int + a % 10) as char], [('0' as int + b % 10) as char];
      Text.TextLessOfEqualParts(Pad(a / 10, w - 1), Pad(b / 10, w - 1), x, y);
      if Pad(a, w) == Pad(b, w) {
        assert Pad(a, w)[..w - 1] == Pad(a / 10, w - 1) && Pad(b, w)[..w - 1] == Pad(b / 10, w - 1);
        assert Pad(a, w)[w - 1] == x[0] && Pad(b, w)[w - 1] == y[0];
      }
    }
  }

  /** One field of the text decides, or what follows it does. */
  lemma Field(a: nat, b: nat, w: nat, x: string, y: string)
    requires a < Pow10(w) && b < Pow10(w)
    ensures Text.TextLess(Pad(a, w) + x, Pad(b, w) + y) <==> if a != b then a < b else Text.TextLess(x, y)
  {
    PadKeepsOrder(a, b, w);
    Text.TextLessOfEqualParts(Pad(a, w), Pad(b, w), x, y);
  }

  lemma Mark(mark: string, x: string, y: string)
    ensures Text.TextLess(mark + x, mark + y) <==> Text.TextLess(x, y)
  {
    Text.TextLessOfEqualParts(mark, mark, x, y);
    Text.TextLessIsTotal(mark, mark);
  }

  /** "+" comes before ".": a time without a fraction is before the same second with one. */
  lemma FractionKeepsOrder(a: int, b: int)
    requires 0 <= a < 1_000_000 && 0 <= b < 1_000_000
    ensures Text.TextLess(Fraction(a), Fraction(b)) <==> a < b
  {
    assert Pow10(6) == 1_000_000 by {
      assert Pow10(3) == 1000;
    }
    Text.TextLessIsTotal("+00:00", "+00:00");
    if a != 0 && b != 0 {
      Mark(".", Pad(a, 6) + "+00:00", Pad(b, 6) + "+00:00");
      Field(a, b, 6, "+00:00", "+00:00");
    }
  }

  function FromSecond(t: Time): string
    requires t.Valid()
  {
    Pad(t.second, 2) + Fraction(t.micro)
  }

  function FromHour(t: Time): string
    requires t.Valid()
  {
    Pad(t.hour, 2) + (":" + (Pad(t.minute, 2) + (":" + FromSecond(t))))
  }

  lemma HoursKeepOrder(t: Time, u: Time)
    requires t.Valid() && u.Valid()
    ensures Text.TextLess(FromHour(t), FromHour(u)) <==>
              if t.hour != u.hour then t.hour < u.hour
              else if t.minute != u.minute then t.minute < u.minute
              else if t.second != u.second then t.second < u.second
              else t.micro < u.micro
  {
    FractionKeepsOrder(t.micro, u.micro);
    Field(t.second, u.second, 2, Fraction(t.micro), Fraction(u.micro));
    Mark(":", FromSecond(t), FromSecond(u));
    Field(t.minute, u.minute, 2, ":" + FromSecond(t), ":" + FromSecond(u));
    Mark(":", Pad(t.minute, 2) + (":" + FromSecond(t)), Pad(u.minute, 2) + (":" + FromSecond(u)));
    Field(t.hour, u.hour, 2, ":" + (Pad(t.minute, 2) + (":" + FromSecond(t))), ":" + (Pad(u.minute, 2) + (":" + FromSecond(u))));
  }

  /** The text order of times in UTC is their order. */
  lemma IsoKeepsOrder(t: Time, u: Time)
    requires t.Valid() && u.Valid()
    ensures Text.TextLess(Iso(t), Iso(u)) <==> Before(t, u)
  {
    HoursKeepOrder(t, u);
    var a, b := "T" + FromHour(t), "T" + FromHour(u);
    Mark("T", FromHour(t), FromHour(u));
    Field(t.day, u.day, 2, a, b);
    Mark("-", Pad(t.day, 2) + a, Pad(u.day, 2) + b);
    var c, d := "-" + (Pad(t.day, 2) + a), "-" + (Pad(u.day, 2) + b);
    Field(t.month, u.month, 2, c, d);
    Mark("-", Pad(t.month, 2) + c, Pad(u.month, 2) + d);
    Field(t.year, u.year, 4, "-" + (Pad(t.month, 2) + c), "-" + (Pad(u.month, 2) + d));
  }

  // -------------------------------------------------------------------------
  // Keys
  // -------------------------------------------------------------------------

  /** The key of a moment; `at` is the text of its time. */
  datatype Key = Key(at: string, order: int, table: string, id: string, kind: string)

  predicate KeyLess(a: Key, b: Key) {
    if a.at != b.at then Text.TextLess(a.at, b.at)
    else if a.order != b.order then a.order < b.order
    else if a.table != b.table then Text.TextLess(a.table, b.table)
    else if a.id != b.id then Text.TextLess(a.id, b.id)
    else Text.TextLess(a.kind, b.kind)
  }

  lemma KeyLessIsTotal(a: Key, b: Key)
    ensures KeyLess(a, b) || KeyLess(b, a) || a == b
    ensures !(KeyLess(a, b) && KeyLess(b, a)) && (a == b ==> !KeyLess(a, b))
  {
    Text.TextLessIsTotal(a.at, b.at);
    Text.TextLessIsTotal(a.table, b.table);
    Text.TextLessIsTotal(a.id, b.id);
    Text.TextLessIsTotal(a.kind, b.kind);
  }

  lemma TextOrderComposes(a: string, b: string, c: string)
    ensures Text.TextLess(a, b) && Text.TextLess(b, c) ==> Text.TextLess(a, c) && a != c
  {
    Text.TextLessIsTotal(a, b);
    if Text.TextLess(a, b) && Text.TextLess(b, c) {
      Text.TextLessIsTransitive(a, b, c);
      Text.TextLessIsTotal(a, c);
    }
  }

  lemma KeyLessIsTransitive(a: Key, b: Key, c: Key)
    requires KeyLess(a, b) && KeyLess(b, c)
    ensures KeyLess(a, c)
  {
    TextOrderComposes(a.at, b.at, c.at);
    TextOrderComposes(a.table, b.table, c.table);
    TextOrderComposes(a.id, b.id, c.id);
    TextOrderComposes(a.kind, b.kind, c.kind);
  }

  // -------------------------------------------------------------------------
  // The sorted history
  // -------------------------------------------------------------------------

  datatype Moment = Moment(key: Key, data: string)

  predicate InOrder(s: seq<Moment>) {
    forall i, j :: 0 <= i < j < |s| ==> !KeyLess(s[j].key, s[i].key)
  }

  predicate DistinctKeys(s: seq<Moment>) {
    forall i, j :: 0 <= i < j < |s| ==> s[i].key != s[j].key
  }

  function Insert(m: Moment, s: seq<Moment>): seq<Moment> {
    if s == [] || !KeyLess(s[0].key, m.key) then [m] + s else [s[0]] + Insert(m, s[1..])
  }

  /** The stable sort by key. */
  function Sort(s: seq<Moment>): seq<Moment> {
    if s == [] then [] else Insert(s[0], Sort(s[1..]))
  }

  lemma InsertFirst(m: Moment, s: seq<Moment>)
    requires InOrder(s) && (s == [] || !KeyLess(s[0].key, m.key))
    ensures InOrder([m] + s)
  {
    forall i | 0 <= i < |s|
      ensures !KeyLess(s[i].key, m.key)
    {
      KeyLessIsTotal(s[0].key, s[0].key);
      if KeyLess(s[i].key, m.key) {
        NotBelow(s[i].key, m.key, s[0].key);
      }
    }
  }

  lemma InsertLater(first: Moment, m: Moment, tail: seq<Moment>, rest: seq<Moment>)
    requires InOrder([first] + tail) && InOrder(rest) && KeyLess(first.key, m.key)
    requires multiset(rest) == multiset{m} + multiset(tail)
    ensures InOrder([first] + rest)
  {
    KeyLessIsTotal(first.key, m.key);
    assert ([first] + tail)[0] == first;
    forall i | 0 <= i < |rest|
      ensures !KeyLess(rest[i].key, first.key)
    {
      assert rest[i] in multiset(rest);
      if rest[i] != m {
        assert rest[i] in multiset(tail);
        var j :| 0 <= j < |tail| && tail[j] == rest[i];
        assert ([first] + tail)[j + 1] == rest[i];
      }
    }
  }

  lemma {:induction false} InsertKeeps(m: Moment, s: seq<Moment>)
    requires InOrder(s)
    ensures InOrder(Insert(m, s)) && multiset(Insert(m, s)) == multiset{m} + multiset(s)
  {
    if s == [] || !KeyLess(s[0].key, m.key) {
      InsertFirst(m, s);
    } else {
      assert s == [s[0]] + s[1..];
      InsertKeeps(m, s[1..]);
      InsertLater(s[0], m, s[1..], Insert(m, s[1..]));
    }
  }

  lemma NotBelow(x: Key, m: Key, first: Key)
    requires KeyLess(x, m) && !KeyLess(first, m)
    ensures KeyLess(x, first)
  {
    KeyLessIsTotal(first, m);
    if KeyLess(m, first) {
      KeyLessIsTransitive(x, m, first);
    }
  }

  /** Sorting keeps every moment once and puts them in the order of their keys. */
  lemma {:induction false} SortKeeps(s: seq<Moment>)
    ensures InOrder(Sort(s)) && multiset(Sort(s)) == multiset(s)
  {
    if s != [] {
      SortKeeps(s[1..]);
      InsertKeeps(s[0], Sort(s[1..]));
      assert s == [s[0]] + s[1..];
    }
  }

  // -------------------------------------------------------------------------
  // Pages
  // -------------------------------------------------------------------------

  /** The moments after a cursor, in their order. */
  function After(s: seq<Moment>, cursor: Option<Key>): seq<Moment> {
    if s == [] then []
    else (if cursor.None? || KeyLess(cursor.value, s[0].key) then [s[0]] else []) + After(s[1..], cursor)
  }

  /** One page and the cursor of the next one, if there is more. */
  function Page(moments: seq<Moment>, cursor: Option<Key>, limit: nat): (seq<Moment>, Option<Key>)
    requires limit >= 1
  {
    var all := After(Sort(moments), cursor);
    if |all| > limit then (all[..limit], Some(all[limit - 1].key)) else (all, None)
  }

  lemma {:induction false} AfterNone(s: seq<Moment>)
    ensures After(s, None) == s
  {
    if s != [] {
      AfterNone(s[1..]);
    }
  }

  /** What comes after the key of a moment, in a sorted history without repeated keys. */
  lemma {:induction false} AfterKey(s: seq<Moment>, i: nat)
    requires InOrder(s) && DistinctKeys(s) && i < |s|
    ensures After(s, Some(s[i].key)) == s[i + 1..]
  {
    var key := s[i].key;
    KeyLessIsTotal(key, key);
    if i > 0 {
      assert !KeyLess(key, s[0].key);
      AfterKey(s[1..], i - 1);
      assert s[1..][i..] == s[i + 1..];
    } else if |s| > 1 {
      KeyLessIsTotal(key, s[1].key);
      AllAfter(s[1..], key);
    }
  }

  lemma {:induction false} AllAfter(s: seq<Moment>, key: Key)
    requires InOrder(s) && s != [] && KeyLess(key, s[0].key)
    ensures After(s, Some(key)) == s
  {
    if |s| > 1 {
      KeyLessIsTotal(s[1].key, key);
      KeyLessIsTotal(s[0].key, s[1].key);
      if s[0].key != s[1].key {
        KeyLessIsTransitive(key, s[0].key, s[1].key);
      }
      AllAfter(s[1..], key);
    }
  }

  /** How many moments are still ahead of a cursor: each page leaves fewer. */
  lemma PagesEnd(moments: seq<Moment>, cursor: Option<Key>, limit: nat)
    requires limit >= 1
    ensures var next := Page(moments, cursor, limit).1;
            next.Some? ==> |After(Sort(moments), next)| < |After(Sort(moments), cursor)|
  {
    var all := After(Sort(moments), cursor);
    if |all| > limit {
      IsAfter(Sort(moments), cursor, limit - 1);
      FewerAfter(Sort(moments), cursor, all[limit - 1].key, limit - 1);
    }
  }

  lemma IsAfter(s: seq<Moment>, cursor: Option<Key>, i: nat)
    requires i < |After(s, cursor)|
    ensures cursor.Some? ==> KeyLess(cursor.value, After(s, cursor)[i].key)
  {
    if cursor.Some? {
      AreAfter(s, cursor.value);
    }
  }

  lemma {:induction false} FewerAfter(s: seq<Moment>, cursor: Option<Key>, key: Key, i: nat)
    requires i < |After(s, cursor)| && After(s, cursor)[i].key == key
    requires cursor.Some? ==> KeyLess(cursor.value, key)
    ensures |After(s, Some(key))| < |After(s, cursor)|
  {
    KeyLessIsTotal(key, key);
    var first := if cursor.None? || KeyLess(cursor.value, s[0].key) then [s[0]] else [];
    if cursor.Some? && KeyLess(key, s[0].key) {
      KeyLessIsTransitive(cursor.value, key, s[0].key);
    }
    if i < |first| {
      AtMostAsMany(s[1..], cursor, key);
    } else {
      FewerAfter(s[1..], cursor, key, i - |first|);
    }
  }

  lemma {:induction false} AtMostAsMany(s: seq<Moment>, cursor: Option<Key>, key: Key)
    requires cursor.Some? ==> KeyLess(cursor.value, key)
    ensures |After(s, Some(key))| <= |After(s, cursor)|
  {
    if s != [] {
      if cursor.Some? && KeyLess(key, s[0].key) {
        KeyLessIsTransitive(cursor.value, key, s[0].key);
      }
      AtMostAsMany(s[1..], cursor, key);
    }
  }

  lemma {:induction false} AreAfter(s: seq<Moment>, cursor: Key)
    ensures forall i :: 0 <= i < |After(s, Some(cursor))| ==> KeyLess(cursor, After(s, Some(cursor))[i].key)
  {
    if s != [] {
      AreAfter(s[1..], cursor);
    }
  }

  /** Following the cursors from none to none. */
  function AllPages(moments: seq<Moment>, cursor: Option<Key>, limit: nat): seq<Moment>
    requires limit >= 1
    decreases |After(Sort(moments), cursor)|
  {
    PagesEnd(moments, cursor, limit);
    var (page, next) := Page(moments, cursor, limit);
    page + if next.None? then [] else AllPages(moments, next, limit)
  }

  /** What is after a cursor is an end of the sorted history. */
  ghost predicate IsTheRest(rest: seq<Moment>, moments: seq<Moment>, cursor: Option<Key>) {
    rest == After(Sort(moments), cursor) && IsAnEnd(rest, Sort(moments))
  }

  ghost predicate IsAnEnd(rest: seq<Moment>, s: seq<Moment>) {
    |rest| <= |s| && rest == s[|s| - |rest|..]
  }

  lemma OnePage(moments: seq<Moment>, cursor: Option<Key>, rest: seq<Moment>, limit: nat)
    requires limit >= 1 && rest == After(Sort(moments), cursor)
    ensures AllPages(moments, cursor, limit)
            == if |rest| <= limit then rest else rest[..limit] + AllPages(moments, Some(rest[limit - 1].key), limit)
  {
  }

  lemma TheNextRest(moments: seq<Moment>, cursor: Option<Key>, rest: seq<Moment>, n: nat)
    requires DistinctKeys(Sort(moments)) && IsTheRest(rest, moments, cursor) && 0 < n <= |rest|
    ensures IsTheRest(rest[n..], moments, Some(rest[n - 1].key))
  {
    var s := Sort(moments);
    EndOfAnEnd(rest, s, n);
    TheRestAt(moments, |s| - |rest| + n - 1);
  }

  lemma EndOfAnEnd(rest: seq<Moment>, s: seq<Moment>, n: nat)
    requires IsAnEnd(rest, s) && 0 < n <= |rest|
    ensures IsAnEnd(rest[n..], s) && rest[n..] == s[|s| - |rest| + n..]
    ensures rest[n - 1] == s[|s| - |rest| + n - 1]
  {
  }

  lemma TheRestAt(moments: seq<Moment>, last: nat)
    requires DistinctKeys(Sort(moments)) && last < |Sort(moments)|
    ensures After(Sort(moments), Some(Sort(moments)[last].key)) == Sort(moments)[last + 1..]
  {
    SortKeeps(moments);
    AfterKey(Sort(moments), last);
  }

  lemma {:induction false} PagesFrom(moments: seq<Moment>, cursor: Option<Key>, rest: seq<Moment>, limit: nat)
    requires limit >= 1 && DistinctKeys(Sort(moments)) && IsTheRest(rest, moments, cursor)
    ensures AllPages(moments, cursor, limit) == rest
    decreases |rest|
  {
    if |rest| <= limit {
      OnePage(moments, cursor, rest, limit);
    } else {
      TheNextRest(moments, cursor, rest, limit);
      PagesFrom(moments, Some(rest[limit - 1].key), rest[limit..], limit);
      OneMorePage(moments, cursor, rest, limit);
    }
  }

  lemma OneMorePage(moments: seq<Moment>, cursor: Option<Key>, rest: seq<Moment>, limit: nat)
    requires limit >= 1 && rest == After(Sort(moments), cursor) && |rest| > limit
    requires AllPages(moments, Some(rest[limit - 1].key), limit) == rest[limit..]
    ensures AllPages(moments, cursor, limit) == rest
  {
    OnePage(moments, cursor, rest, limit);
    assert rest == rest[..limit] + rest[limit..];
  }

  lemma {:induction false} InsertDistinct(m: Moment, s: seq<Moment>)
    requires InOrder(s)
    ensures DistinctKeys(Insert(m, s)) <==> DistinctKeys(s) && forall x :: x in s ==> x.key != m.key
  {
    if s != [] && KeyLess(s[0].key, m.key) {
      var rest := Insert(m, s[1..]);
      InsertDistinct(m, s[1..]);
      InsertKeeps(m, s[1..]);
      KeyLessIsTotal(s[0].key, m.key);
      assert s == [s[0]] + s[1..];
      HeadDistinct(s[0], rest);
      HeadDistinct(s[0], s[1..]);
      assert forall x :: x in rest <==> x in multiset(rest);
      assert forall x :: x in rest <==> x == m || x in s[1..];
    } else {
      HeadDistinct(m, s);
    }
  }

  lemma HeadDistinct(m: Moment, s: seq<Moment>)
    ensures DistinctKeys([m] + s) <==> DistinctKeys(s) && forall x :: x in s ==> x.key != m.key
  {
    var all := [m] + s;
    if DistinctKeys(all) {
      forall i, j | 0 <= i < j < |s|
        ensures s[i].key != s[j].key
      {
        assert all[i + 1] == s[i] && all[j + 1] == s[j];
      }
      forall x | x in s
        ensures x.key != m.key
      {
        var i :| 0 <= i < |s| && s[i] == x;
        assert all[0] == m && all[i + 1] == x;
      }
    }
  }

  lemma {:induction false} SortDistinct(s: seq<Moment>)
    ensures DistinctKeys(Sort(s)) <==> DistinctKeys(s)
  {
    if s != [] {
      SortDistinct(s[1..]);
      SortKeeps(s[1..]);
      InsertDistinct(s[0], Sort(s[1..]));
      HeadDistinct(s[0], s[1..]);
      assert s == [s[0]] + s[1..];
      assert forall x :: x in Sort(s[1..]) <==> x in multiset(Sort(s[1..]));
      assert forall x :: x in s[1..] <==> x in multiset(s[1..]);
    }
  }

  /** Page by page of one moment, the keys that come out go up. */
  lemma {:induction false} OneByOneGoesUp(moments: seq<Moment>, cursor: Option<Key>)
    ensures var r := AllPages(moments, cursor, 1);
            && DistinctKeys(r)
            && forall i :: 0 <= i < |r| && cursor.Some? ==> KeyLess(cursor.value, r[i].key)
    decreases |After(Sort(moments), cursor)|
  {
    var all := After(Sort(moments), cursor);
    if cursor.Some? {
      AreAfter(Sort(moments), cursor.value);
    }
    if |all| > 1 {
      var next := Some(all[0].key);
      PagesEnd(moments, cursor, 1);
      OneByOneGoesUp(moments, next);
      var rest := AllPages(moments, next, 1);
      forall i | 0 <= i < |rest|
        ensures rest[i].key != all[0].key && (cursor.Some? ==> KeyLess(cursor.value, rest[i].key))
      {
        KeyLessIsTotal(all[0].key, rest[i].key);
        if cursor.Some? {
          KeyLessIsTransitive(cursor.value, all[0].key, rest[i].key);
        }
      }
      HeadDistinct(all[0], rest);
      assert all[..1] == [all[0]];
    }
  }

  /** Following the cursors returns the sorted history, every moment once. */
  predicate Exact(moments: seq<Moment>, limit: nat)
    requires limit >= 1
  {
    AllPages(moments, None, limit) == Sort(moments)
  }

  lemma DistinctIsExact(moments: seq<Moment>, limit: nat)
    requires DistinctKeys(moments) && limit >= 1
    ensures Exact(moments, limit)
  {
    SortDistinct(moments);
    AfterNone(Sort(moments));
    assert Sort(moments) == Sort(moments)[0..];
    PagesFrom(moments, None, Sort(moments), limit);
  }

  /** Paging is exact whatever the limit exactly when no two moments have the same key. */
  lemma PagesAreExact(moments: seq<Moment>)
    ensures DistinctKeys(moments) <==> forall limit: nat :: limit >= 1 ==> Exact(moments, limit)
  {
    forall limit: nat | limit >= 1 && DistinctKeys(moments)
      ensures Exact(moments, limit)
    {
      DistinctIsExact(moments, limit);
    }
    SortDistinct(moments);
    OneByOneGoesUp(moments, None);
    assert Exact(moments, 1) ==> DistinctKeys(moments);
  }

  /** A page has `limit` moments when more follow, and no more than that at the end. */
  lemma PagesAreFull(moments: seq<Moment>, cursor: Option<Key>, limit: nat)
    requires limit >= 1
    ensures var (page, next) := Page(moments, cursor, limit);
            && |page| <= limit && (next.Some? ==> |page| == limit && next == Some(page[limit - 1].key))
  {
  }

  /** What the pages return of a history without equal keys: every moment once, earlier
      times first and, at the same time, by the order, the table, the id and the kind. */
  lemma ThePagesAreInTime(moments: seq<Moment>, limit: nat, i: nat, j: nat)
    requires DistinctKeys(moments) && limit >= 1
    ensures var all := AllPages(moments, None, limit);
            && multiset(all) == multiset(moments)
            && (i < j < |all| ==>
                  var a, b := all[i].key, all[j].key;
                  && (forall t: Time, u: Time :: t.Valid() && u.Valid() && a.at == Iso(t) && b.at == Iso(u) ==> !Before(u, t))
                  && (a.at == b.at ==> a.order <= b.order)
                  && (a.at == b.at && a.order == b.order ==> !Text.TextLess(b.table, a.table))
                  && (a.at == b.at && a.order == b.order && a.table == b.table ==> !Text.TextLess(b.id, a.id))
                  && (a.at == b.at && a.order == b.order && a.table == b.table && a.id == b.id ==> !Text.TextLess(b.kind, a.kind)))
  {
    DistinctIsExact(moments, limit);
    SortKeeps(moments);
    var all := AllPages(moments, None, limit);
    if i < j < |all| {
      NotAfter(all[i].key, all[j].key);
    }
  }

  /** A key that is not after another one is not later and, at the same time, comes first
      by the other fields. */
  lemma NotAfter(a: Key, b: Key)
    requires !KeyLess(b, a)
    ensures forall t: Time, u: Time :: t.Valid() && u.Valid() && a.at == Iso(t) && b.at == Iso(u) ==> !Before(u, t)
    ensures a.at == b.at ==> a.order <= b.order
    ensures a.at == b.at && a.order == b.order ==> !Text.TextLess(b.table, a.table)
    ensures a.at == b.at && a.order == b.order && a.table == b.table ==> !Text.TextLess(b.id, a.id)
    ensures a.at == b.at && a.order == b.order && a.table == b.table && a.id == b.id ==> !Text.TextLess(b.kind, a.kind)
  {
    Text.TextLessIsTotal(b.at, a.at);
    Text.TextLessIsTotal(b.table, a.table);
    Text.TextLessIsTotal(b.id, a.id);
    forall t: Time, u: Time | t.Valid() && u.Valid() && a.at == Iso(t) && b.at == Iso(u)
      ensures !Before(u, t)
    {
      IsoKeepsOrder(u, t);
    }
  }

  // -------------------------------------------------------------------------
  // Cursors
  // -------------------------------------------------------------------------

  const MAX_CURSOR := 400
  const MIN_CURSOR := 8
  const MAX_ID := 64
  const MAX_TABLE := 40
  const MAX_KIND := 28

  /** The characters of the compact JSON list of a key whose texts need no escape. */
  function JsonLength(key: Key): nat {
    14 + |key.at| + |Text.Decimal(if key.order < 0 then -key.order else key.order)| + (if key.order < 0 then 1 else 0)
    + |key.table| + |key.id| + |key.kind|
  }

  /** The characters of the cursor: base64 without its padding. */
  function CursorLength(key: Key): nat {
    (4 * JsonLength(key) + 2) / 3
  }

  /** `decode_cursor` of the cursor of a key: what it checks before it gives the key back. */
  function Decoded(key: Key, tables: set<string>, kinds: set<string>, parses: string -> bool): Option<Key> {
    if MIN_CURSOR <= CursorLength(key) <= MAX_CURSOR && key.table in tables && |key.id| <= MAX_ID && key.kind in kinds
       && parses(key.at) then Some(key)
    else None
  }

  /** The cursor of a moment of the history decodes to its key exactly when its time, its
      table and its kind are known and the id of its evidence has at most 64 characters:
      the length of the cursor never stands in the way. */
  lemma CursorDecodes(key: Key, t: Time, tables: set<string>, kinds: set<string>, parses: string -> bool)
    requires t.Valid() && key.at == Iso(t) && 0 <= key.order <= 3
    requires forall table :: table in tables ==> |table| <= MAX_TABLE
    requires forall kind :: kind in kinds ==> |kind| <= MAX_KIND
    ensures Decoded(key, tables, kinds, parses) == Some(key)
            <==> parses(key.at) && key.table in tables && key.kind in kinds && |key.id| <= 64
    ensures Decoded(key, tables, kinds, parses).Some? ==> Decoded(key, tables, kinds, parses) == Some(key)
  {
    assert |Iso(t)| == 19 + |Fraction(t.micro)|;
    assert |Text.Decimal(key.order)| == 1;
  }
}
