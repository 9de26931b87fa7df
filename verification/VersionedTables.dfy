/** Tables whose rows are published in versions: a new version is inserted next to the
    old ones, numbered after all of them. */
module VersionedTables {
  import opened Sets

  datatype Key<N(==)> = Key(name: N, version: int)

  /** The key that `k` was moved to. */
  function New<N(==)>(k: Key<N>, moved: map<Key<N>, int>): Key<N>
    requires k in moved
  {
    Key(k.name, moved[k])
  }

  /** Every moved key has a new version, after all the versions of its name. */
  ghost predicate Fresh<N, Row>(before: map<Key<N>, Row>, moved: map<Key<N>, int>) {
    && (forall k :: k in moved ==> k in before)
    && (forall k, j {:trigger New(k, moved), j in before} ::
          k in moved && j in before && j.name == k.name ==> j.version < New(k, moved).version)
    && (forall k, j {:trigger New(k, moved), New(j, moved)} ::
          k in moved && j in moved && k != j ==> New(k, moved) != New(j, moved))
  }

  /** The table after new versions of the moved rows: the new rows are as `edit` makes
      them, the rows they came from as `leave` makes them, the others as they were; and
      no version number is skipped. */
  ghost predicate Extends<N, Row>(
      before: map<Key<N>, Row>, moved: map<Key<N>, int>, leave: Row -> Row, edit: (Key<N>, Row) -> Row,
      after: map<Key<N>, Row>)
  {
    && Fresh(before, moved)
    && NothingElse(before, moved, after)
    && OldRows(before, moved, leave, after)
    && NewRows(before, moved, edit, after)
  }

  ghost predicate NothingElse<N, Row>(before: map<Key<N>, Row>, moved: map<Key<N>, int>, after: map<Key<N>, Row>) {
    forall x :: x in after ==> x in before || exists k :: k in moved && x == New(k, moved)
  }

  ghost predicate OldRows<N, Row>(
      before: map<Key<N>, Row>, moved: map<Key<N>, int>, leave: Row -> Row, after: map<Key<N>, Row>)
  {
    forall x {:trigger after[x]} {:trigger x in after} :: x in before ==> x in after && after[x] == if x in moved then leave(before[x]) else before[x]
  }

  ghost predicate NewRows<N, Row>(
      before: map<Key<N>, Row>, moved: map<Key<N>, int>, edit: (Key<N>, Row) -> Row, after: map<Key<N>, Row>)
    requires Fresh(before, moved)
  {
    && (forall k {:trigger New(k, moved)} :: k in moved ==> New(k, moved) in after && after[New(k, moved)] == edit(k, before[k]))
    && (forall k {:trigger Follows(after, New(k, moved))} :: k in moved ==> Follows(after, New(k, moved)))
  }

  /** The version before that one is in the table. */
  ghost predicate Follows<N, Row>(t: map<Key<N>, Row>, k: Key<N>) {
    Key(k.name, k.version - 1) in t
  }

  lemma NothingMoved<N, Row>(before: map<Key<N>, Row>, leave: Row -> Row, edit: (Key<N>, Row) -> Row)
    ensures Extends(before, map[], leave, edit, before)
  {
  }

  /** The number after all the versions of a name. */
  ghost predicate IsNext<N, Row>(t: map<Key<N>, Row>, name: N, v: int) {
    Follows(t, Key(name, v)) && forall k :: k in t && k.name == name ==> k.version < v
  }

  lemma OneMoreNewRow<N, Row>(
      before: map<Key<N>, Row>, moved: map<Key<N>, int>, edit: (Key<N>, Row) -> Row,
      current: map<Key<N>, Row>, k: Key<N>, v: int, left: Row, after: map<Key<N>, Row>)
    requires Fresh(before, moved) && NewRows(before, moved, edit, current)
    requires k in before && k !in moved && IsNext(current, k.name, v)
    requires after == current[k := left][Key(k.name, v) := edit(k, before[k])]
    requires Fresh(before, moved[k := v])
    ensures NewRows(before, moved[k := v], edit, after)
  {
    var more := moved[k := v];
    forall j | j in more
      ensures New(j, more) in after && after[New(j, more)] == edit(j, before[j])
    {
      if j != k {
        assert New(j, more) == New(j, moved);
        assert New(j, moved) in current;
      }
    }
    forall j | j in more
      ensures Follows(after, New(j, more))
    {
      assert j in moved ==> Follows(current, New(j, moved));
    }
  }

  lemma OneMoreMoved<N, Row>(
      before: map<Key<N>, Row>, moved: map<Key<N>, int>, leave: Row -> Row, edit: (Key<N>, Row) -> Row,
      current: map<Key<N>, Row>, k: Key<N>, v: int, after: map<Key<N>, Row>)
    requires Extends(before, moved, leave, edit, current)
    requires k in before && k !in moved && IsNext(current, k.name, v)
    requires after == current[k := leave(before[k])][Key(k.name, v) := edit(k, before[k])]
    ensures Extends(before, moved[k := v], leave, edit, after)
  {
    var more, newest := moved[k := v], Key(k.name, v);
    assert New(k, more) == newest;
    assert NothingElse(before, more, after) by {
      forall x | x in after
        ensures x in before || exists j :: j in more && x == New(j, more)
      {
        if x != newest && x !in before {
          assert x in current;
          var j :| j in moved && x == New(j, moved);
          assert j in more && x == New(j, more);
        }
      }
    }
    assert Fresh(before, more) by {
      assert newest !in current;
      assert forall j :: j in moved ==> New(j, more) == New(j, moved) && New(j, moved) in current;
    }
    OneMoreNewRow(before, moved, edit, current, k, v, leave(before[k]), after);
  }

  method NextVersion<N(==), Row>(t: map<Key<N>, Row>, name: N, some: int) returns (v: int)
    requires Key(name, some) in t
    ensures IsNext(t, name, v)
  {
    var keys := Elements(t.Keys);
    var greatest := some;
    for i := 0 to |keys|
      invariant Key(name, greatest) in t
      invariant forall k :: 0 <= k < i && keys[k].name == name ==> keys[k].version <= greatest
      invariant some <= greatest
    {
      if keys[i].name == name && keys[i].version > greatest {
        assert keys[i] in keys;
        assert keys[i] == Key(name, keys[i].version);
        greatest := keys[i].version;
      }
    }
    forall k | k in t && k.name == name
      ensures k.version <= greatest
    {
      assert k in keys;
    }
    return greatest + 1;
  }

  /** The loop that inserts the next version of some rows and leaves the old ones alone. */
  method CopyNext<N(==), Row>(before: map<Key<N>, Row>, selected: set<Key<N>>, edit: (Key<N>, Row) -> Row)
    returns (after: map<Key<N>, Row>, moved: map<Key<N>, int>)
    requires selected <= before.Keys
    ensures moved.Keys == selected
    ensures Extends(before, moved, x => x, edit, after)
  {
    var keys := Elements(selected);
    after, moved := before, map[];
    NothingMoved(before, x => x, edit);
    for i := 0 to |keys|
      invariant moved.Keys <= selected
      invariant forall j :: 0 <= j < |keys| ==> (keys[j] in moved <==> j < i)
      invariant Extends(before, moved, x => x, edit, after)
    {
      var k := keys[i];
      assert k in keys;
      var v := NextVersion(after, k.name, k.version);
      var next := after[Key(k.name, v) := edit(k, before[k])];
      assert next == after[k := before[k]][Key(k.name, v) := edit(k, before[k])];
      OneMoreMoved(before, moved, x => x, edit, after, k, v, next);
      after, moved := next, moved[k := v];
    }
    assert forall k :: k in selected <==> k in keys;
  }

  /** Moving tells apart: as many new keys as moved ones. */
  lemma AsManyNewKeys<N, Row>(before: map<Key<N>, Row>, moved: map<Key<N>, int>, news: set<Key<N>>)
    requires Fresh(before, moved)
    requires news == set k | k in moved :: New(k, moved)
    ensures |news| == |moved.Keys|
  {
    var f := k => if k in moved then New(k, moved) else k;
    assert news == set k | k in moved.Keys :: f(k);
    ImageSize(moved.Keys, news, f);
  }
}
