/** What a report of differences says of the two documents, in terms of their members and
    items, and of what its pointers evaluate to (section 4 of RFC 6901). */
module JsonMeaning {
  import opened Wrappers
  import opened Text
  import opened JsonDiff

  // -------------------------------------------------------------------------
  // Equality
  // -------------------------------------------------------------------------

  /** Equal scalars; arrays of equal items, one by one; objects with equal values at the
      same keys, in any order. */
  ghost predicate Equal(a: Json, b: Json)
    decreases a, 1
  {
    match a
    case Scalar(text) => b == Scalar(text)
    case Array(items) => b.Array? && |b.items| == |items| && forall i :: 0 <= i < |items| ==> Equal(items[i], b.items[i])
    case Object(members) =>
      && b.Object?
      && (forall k :: 0 <= k < |b.members| ==> HasKey(members, b.members[k].key))
      && (forall i :: 0 <= i < |members| ==> HasEqual(a, i, b.members))
  }

  /** One of the members has the key of the `i`-th of the object, with an equal value. */
  ghost predicate HasEqual(a: Json, i: nat, members: seq<Member>)
    requires a.Object? && i < |a.members|
    decreases a, 0
  {
    exists k :: 0 <= k < |members| && members[k].key == a.members[i].key && Equal(a.members[i].value, members[k].value)
  }

  /** What an object has at a key is the value of the member with it. */
  lemma GetIs(members: seq<Member>, i: nat)
    requires i < |members| && forall a, b :: 0 <= a < b < |members| ==> members[a].key != members[b].key
    ensures HasKey(members, members[i].key) && Get(members, members[i].key) == Some(members[i].value)
  {
    var p := Position(members, members[i].key);
    assert p == i;
  }

  lemma EqualHere(a: Json, b: Json)
    requires Equal(a, b)
    ensures AgreeHere(Some(a), Some(b))
  {
  }

  lemma {:induction false} EqualIsSame(a: Json, b: Json)
    requires Valid(a) && Valid(b) && Equal(a, b)
    ensures Same(Some(a), Some(b))
    decreases Size(Some(a))
  {
    EqualHere(a, b);
    var l, r := Some(a), Some(b);
    forall n | 0 <= n < |Steps(l, r)|
      ensures (ChildIsSmaller(l, Steps(l, r)[n]); Same(Child(l, Steps(l, r)[n]), Child(r, Steps(l, r)[n])))
    {
      var step := Steps(l, r)[n];
      ChildIsSmaller(l, step);
      if a.Array? {
        EqualIsSame(a.items[n], b.items[n]);
      } else {
        var i, k := EqualMembers(a, b, step);
        EqualIsSame(a.members[i].value, b.members[k].value);
      }
    }
  }

  /** A step from equal objects is to a member of each. */
  lemma EqualMembers(a: Json, b: Json, step: Step) returns (i: nat, k: nat)
    requires Valid(a) && Valid(b) && Equal(a, b) && a.Object? && step in Steps(Some(a), Some(b))
    ensures i < |a.members| && k < |b.members| && Equal(a.members[i].value, b.members[k].value)
    ensures Child(Some(a), step) == Some(a.members[i].value) && Child(Some(b), step) == Some(b.members[k].value)
  {
    var left, right := a.members, b.members;
    KeyOfStep(left, right, step);
    i := Position(left, step.key);
    k := TheEqualMember(a, b, i);
    GetIs(left, i);
    GetIs(right, k);
  }

  lemma KeyOfStep(left: seq<Member>, right: seq<Member>, step: Step)
    requires step in Steps(Some(Object(left)), Some(Object(right)))
    ensures step.Name? && (HasKey(left, step.key) || HasKey(right, step.key))
  {
    var keys := AllKeys(left, right);
    var n :| 0 <= n < |keys| && step == Name(keys[n]);
    KeyAt(left, right, n);
  }

  lemma KeyAt(left: seq<Member>, right: seq<Member>, n: nat)
    requires n < |AllKeys(left, right)|
    ensures HasKey(left, AllKeys(left, right)[n]) || HasKey(right, AllKeys(left, right)[n])
  {
    NewKeysKeeps(left, right);
    if n < |left| {
      assert left[n].key == AllKeys(left, right)[n];
    } else {
      assert NewKeys(left, right)[n - |left|] in NewKeys(left, right);
    }
  }

  lemma TheEqualMember(a: Json, b: Json, i: nat) returns (k: nat)
    requires a.Object? && Equal(a, b) && i < |a.members|
    ensures k < |b.members| && b.members[k].key == a.members[i].key && Equal(a.members[i].value, b.members[k].value)
  {
    assert HasEqual(a, i, b.members);
    k :| 0 <= k < |b.members| && b.members[k].key == a.members[i].key && Equal(a.members[i].value, b.members[k].value);
  }

  lemma {:induction false} SameIsEqual(a: Json, b: Json)
    requires Valid(a) && Valid(b) && Same(Some(a), Some(b))
    ensures Equal(a, b)
    decreases Size(Some(a))
  {
    var l, r := Some(a), Some(b);
    if a.Array? {
      SameLength(a, b);
      forall i | 0 <= i < |a.items|
        ensures Equal(a.items[i], b.items[i])
      {
        ChildIsSmaller(l, Place(i));
        SameOneStepDown(l, r, Place(i));
        SameIsEqual(a.items[i], b.items[i]);
      }
    } else if a.Object? {
      forall k | 0 <= k < |b.members|
        ensures HasKey(a.members, b.members[k].key)
      {
        GetIs(b.members, k);
        SameOneStepDown(l, r, Name(b.members[k].key));
      }
      forall i | 0 <= i < |a.members|
        ensures HasEqual(a, i, b.members)
      {
        var key := a.members[i].key;
        GetIs(a.members, i);
        ChildIsSmaller(l, Name(key));
        SameOneStepDown(l, r, Name(key));
        var k := Position(b.members, key);
        SameIsEqual(a.members[i].value, b.members[k].value);
      }
    }
  }

  /** One step down, the same documents have both something, the same. */
  lemma SameOneStepDown(l: Option<Json>, r: Option<Json>, step: Step)
    requires Same(l, r) && (BothObjects(l, r) || BothArrays(l, r)) && (Child(l, step).Some? || Child(r, step).Some?)
    ensures Same(Child(l, step), Child(r, step)) && Child(l, step).Some? && Child(r, step).Some?
  {
    StepsCover(l, r, step);
    var n :| 0 <= n < |Steps(l, r)| && Steps(l, r)[n] == step;
  }

  lemma SameLength(a: Json, b: Json)
    requires Same(Some(a), Some(b)) && a.Array?
    ensures b.Array? && |a.items| == |b.items|
  {
    var l, r := Some(a), Some(b);
    if |a.items| < |b.items| {
      SameOneStepDown(l, r, Place(|a.items|));
    } else if |b.items| < |a.items| {
      SameOneStepDown(l, r, Place(|b.items|));
    }
  }

  /** No difference is found exactly between equal documents. */
  lemma NoDifferencesMeansEqual(a: Json, b: Json)
    requires Valid(a) && Valid(b)
    ensures Differences(Some(a), Some(b)) == [] <==> Equal(a, b)
  {
    NoDifferencesMeansSame(Some(a), Some(b));
    if Equal(a, b) {
      EqualIsSame(a, b);
    } else if Same(Some(a), Some(b)) {
      SameIsEqual(a, b);
    }
  }

  // -------------------------------------------------------------------------
  // Pointers
  // -------------------------------------------------------------------------

  predicate AllDigits(s: string) {
    s != "" && forall i :: 0 <= i < |s| ==> IsDigit(s[i])
  }

  /** The evaluation of a pointer: one segment after the other, unescaped, is the key of
      a member or the number of an item. */
  function Evaluate(o: Option<Json>, pointer: string): Option<Json>
    decreases |pointer|
  {
    if pointer == "" then o
    else if o.None? || pointer[0] != '/' then None
    else
      UntilIsAPrefix(pointer[1..], "/");
      var segment := Until(pointer[1..], "/");
      var rest := pointer[1..][|segment|..];
      match o.value
      case Scalar(_) => None
      case Object(members) =>
        if HasKey(members, Unescape(segment)) then Evaluate(Some(members[Position(members, Unescape(segment))].value), rest)
        else None
      case Array(items) =>
        if AllDigits(segment) && Number(segment) < |items| then Evaluate(Some(items[Number(segment)]), rest) else None
  }

  lemma {:induction false} UntilIsAPrefix(s: string, stops: string)
    ensures Until(s, stops) <= s
  {
    if s != "" && s[0] !in stops {
      UntilIsAPrefix(s[1..], stops);
    }
  }

  /** The steps are names in objects and places in arrays, as far as the document goes. */
  predicate StepsFit(o: Option<Json>, path: Path)
    decreases |path|
  {
    path == [] || o.None?
    || ((o.value.Object? ==> path[0].Name?) && (o.value.Array? ==> path[0].Place?) && StepsFit(Child(o, path[0]), path[1..]))
  }

  lemma FirstSegment(path: Path)
    requires path != []
    ensures var p, segment := Pointer(path), EscapeEach(StepText(path[0]));
            && p != "" && p[0] == '/' && Until(p[1..], "/") == segment
            && segment <= p[1..] && p[1..][|segment|..] == Pointer(path[1..])
    ensures path[0].Place? ==> EscapeEach(StepText(path[0])) == Decimal(path[0].i)
  {
    var segment, rest := EscapeEach(StepText(path[0])), Pointer(path[1..]);
    EscapeIsEach(StepText(path[0]));
    UnescapeUndoes(StepText(path[0]));
    PointerIsDelimited(path[1..]);
    Associate("/", segment, rest);
    assert Pointer(path)[1..] == segment + rest;
    UntilStops(segment, rest, "/");
    if path[0].Place? {
      DecimalIsDigits(path[0].i);
      PlainText(Decimal(path[0].i));
    }
  }

  lemma {:induction false} PlainText(s: string)
    requires forall i :: 0 <= i < |s| ==> IsDigit(s[i])
    ensures EscapeEach(s) == s
  {
    if s != "" {
      assert forall i :: 0 <= i < |s[1..]| ==> s[1..][i] == s[i + 1];
      PlainText(s[1..]);
      assert s == [s[0]] + s[1..];
    }
  }

  /** The pointer of a path evaluates to what the document has at its end. */
  lemma {:induction false} PointerEvaluates(o: Option<Json>, path: Path)
    requires StepsFit(o, path)
    ensures Evaluate(o, Pointer(path)) == At(o, path)
    decreases |path|
  {
    if path != [] {
      FirstSegment(path);
      UnescapeUndoes(StepText(path[0]));
      if o.None? {
        NothingFurther(path);
      } else {
        if path[0].Place? {
          NumberOfDecimal(path[0].i);
        }
        PointerEvaluates(Child(o, path[0]), path[1..]);
        NothingFurther(path[1..]);
      }
    }
  }

  lemma {:induction false} NothingFurther(path: Path)
    ensures At(None, path) == None
  {
    if path != [] {
      NothingFurther(path[1..]);
    }
  }

  lemma {:induction false} ReachedStepsFit(l: Option<Json>, r: Option<Json>, path: Path)
    requires Reached(l, r, path) && AllSteps(l, r, path)
    ensures StepsFit(l, path) && StepsFit(r, path)
    decreases |path|
  {
    if path != [] {
      ReachedStepsFit(Child(l, path[0]), Child(r, path[0]), path[1..]);
    }
  }

  /** A change reported: its pointer evaluates to the first value in the first document
      and to the second one in the second, null where it evaluates to nothing; the two are
      not equal; and the pointer is not that of the state or of the version. */
  lemma AChangeSaysWhatEachHas(before: Json, after: Json, changes: seq<Change>, i: nat)
    requires Valid(before) && Valid(after)
    requires changes == Changes(Filtered(Differences(Some(before), Some(after)))) && i < |changes|
    ensures var was, now := Evaluate(Some(before), changes[i].pointer), Evaluate(Some(after), changes[i].pointer);
            && changes[i].left == (if was.Some? then was.value else Scalar("null"))
            && changes[i].right == (if now.Some? then now.value else Scalar("null"))
            && (was.Some? || now.Some?) && !(was.Some? && now.Some? && Equal(was.value, now.value))
    ensures changes[i].pointer != "/estado" && changes[i].pointer != "/version"
  {
    var l, r := Some(before), Some(after);
    var kept := Filtered(Differences(l, r));
    var d := kept[i];
    FilteredKeeps(Differences(l, r), d);
    ReportedMeansDiffers(l, r, d);
    DifferingPathsHaveSteps(l, r, d.path);
    ReachedStepsFit(l, r, d.path);
    PointerEvaluates(l, d.path);
    PointerEvaluates(r, d.path);
    if d.left.Some? && d.right.Some? && Equal(d.left.value, d.right.value) {
      EqualHere(d.left.value, d.right.value);
    }
  }
}
