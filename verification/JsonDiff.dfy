/** The differences of two JSON documents, by their pointers (`json_diff`, `_pointer`;
    section 3 of RFC 6901). */
module JsonDiff {
  import opened Wrappers
  import opened Text

  /** A JSON value; a scalar is the text it is printed as. The keys of an object are distinct. */
  datatype Json = Scalar(text: string) | Object(members: seq<Member>) | Array(items: seq<Json>)

  datatype Member = Member(key: string, value: Json)

  datatype Step = Name(key: string) | Place(i: nat)

  type Path = seq<Step>

  /** A difference: what each document has at the path, `None` when it has nothing. */
  datatype Difference = Difference(path: Path, left: Option<Json>, right: Option<Json>)

  predicate Valid(j: Json)
    decreases j
  {
    match j
    case Scalar(_) => true
    case Object(members) =>
      && (forall i, k :: 0 <= i < k < |members| ==> members[i].key != members[k].key)
      && forall i :: 0 <= i < |members| ==> Valid(members[i].value)
    case Array(items) => forall i :: 0 <= i < |items| ==> Valid(items[i])
  }

  predicate ValidOption(o: Option<Json>) {
    o.Some? ==> Valid(o.value)
  }

  predicate HasKey(members: seq<Member>, key: string) {
    exists i :: 0 <= i < |members| && members[i].key == key
  }

  function Position(members: seq<Member>, key: string): (i: nat)
    requires HasKey(members, key)
    ensures i < |members| && members[i].key == key
  {
    if members[0].key == key then 0
    else
      assert HasKey(members[1..], key) by {
        var i :| 0 <= i < |members| && members[i].key == key;
        assert members[1..][i - 1].key == key;
      }
      1 + Position(members[1..], key)
  }

  function Get(members: seq<Member>, key: string): Option<Json> {
    if HasKey(members, key) then Some(members[Position(members, key)].value) else None
  }

  function Item(items: seq<Json>, i: nat): Option<Json> {
    if i < |items| then Some(items[i]) else None
  }

  predicate BothObjects(l: Option<Json>, r: Option<Json>) {
    l.Some? && r.Some? && l.value.Object? && r.value.Object?
  }

  predicate BothArrays(l: Option<Json>, r: Option<Json>) {
    l.Some? && r.Some? && l.value.Array? && r.value.Array?
  }

  /** Neither document has anything there, or the same scalar, or both an object, or both an array. */
  predicate AgreeHere(l: Option<Json>, r: Option<Json>) {
    (l.None? && r.None?) || BothObjects(l, r) || BothArrays(l, r)
    || (l.Some? && r.Some? && l.value.Scalar? && l.value == r.value)
  }

  function KeysOf(members: seq<Member>): seq<string> {
    seq(|members|, i requires 0 <= i < |members| => members[i].key)
  }

  function NewKeys(left: seq<Member>, right: seq<Member>): seq<string> {
    if right == [] then []
    else (if HasKey(left, right[0].key) then [] else [right[0].key]) + NewKeys(left, right[1..])
  }

  /** The keys of both objects: the left ones first, then the others of the right one. */
  function AllKeys(left: seq<Member>, right: seq<Member>): seq<string> {
    KeysOf(left) + NewKeys(left, right)
  }

  function Max(a: nat, b: nat): nat {
    if a < b then b else a
  }

  function Under(step: Step, ds: seq<Difference>): seq<Difference> {
    seq(|ds|, i requires 0 <= i < |ds| => ds[i].(path := [step] + ds[i].path))
  }

  // -------------------------------------------------------------------------
  // The differences
  // -------------------------------------------------------------------------

  function Size(o: Option<Json>): nat {
    match o
    case None => 0
    case Some(j) => 1 + JsonSize(j)
  }

  function JsonSize(j: Json): nat
    decreases j, 1, 0
  {
    match j
    case Scalar(_) => 0
    case Object(members) => MembersSize(j, |members|)
    case Array(items) => ItemsSize(j, |items|)
  }

  function MembersSize(j: Json, n: nat): nat
    requires j.Object? && n <= |j.members|
    decreases j, 0, n
  {
    if n == 0 then 0 else MembersSize(j, n - 1) + 1 + JsonSize(j.members[n - 1].value)
  }

  function ItemsSize(j: Json, n: nat): nat
    requires j.Array? && n <= |j.items|
    decreases j, 0, n
  {
    if n == 0 then 0 else ItemsSize(j, n - 1) + 1 + JsonSize(j.items[n - 1])
  }

  lemma {:induction false} MemberIsSmaller(j: Json, n: nat, i: nat)
    requires j.Object? && i < n <= |j.members|
    ensures 1 + JsonSize(j.members[i].value) <= MembersSize(j, n)
  {
    if i < n - 1 {
      MemberIsSmaller(j, n - 1, i);
    }
  }

  lemma {:induction false} ItemIsSmaller(j: Json, n: nat, i: nat)
    requires j.Array? && i < n <= |j.items|
    ensures 1 + JsonSize(j.items[i]) <= ItemsSize(j, n)
  {
    if i < n - 1 {
      ItemIsSmaller(j, n - 1, i);
    }
  }

  lemma ChildIsSmaller(l: Option<Json>, step: Step)
    requires l.Some?
    ensures Size(Child(l, step)) < Size(l)
  {
    match l.value
    case Scalar(_) =>
    case Object(members) =>
      if step.Name? && HasKey(members, step.key) {
        MemberIsSmaller(l.value, |members|, Position(members, step.key));
      }
    case Array(items) =>
      if step.Place? && step.i < |items| {
        ItemIsSmaller(l.value, |items|, step.i);
      }
  }

  /** What a document has one step down. */
  function Child(l: Option<Json>, step: Step): Option<Json> {
    if l.None? then None
    else
      match l.value
      case Scalar(_) => None
      case Object(members) => if step.Name? then Get(members, step.key) else None
      case Array(items) => if step.Place? then Item(items, step.i) else None
  }

  /** The steps that the walk takes from a pair of objects or of arrays. */
  function Steps(l: Option<Json>, r: Option<Json>): seq<Step> {
    if BothObjects(l, r) then
      var keys := AllKeys(l.value.members, r.value.members);
      seq(|keys|, i requires 0 <= i < |keys| => Name(keys[i]))
    else if BothArrays(l, r) then seq(Max(|l.value.items|, |r.value.items|), i requires i >= 0 => Place(i))
    else []
  }

  function Differences(l: Option<Json>, r: Option<Json>): seq<Difference>
    decreases Size(l), 1, 0
  {
    if BothObjects(l, r) || BothArrays(l, r) then DifferencesOfSteps(l, r, Steps(l, r))
    else if AgreeHere(l, r) then []
    else [Difference([], l, r)]
  }

  function DifferencesOfSteps(l: Option<Json>, r: Option<Json>, steps: seq<Step>): seq<Difference>
    requires l.Some?
    decreases Size(l), 0, |steps|
  {
    if steps == [] then []
    else
      var step := steps[|steps| - 1];
      ChildIsSmaller(l, step);
      DifferencesOfSteps(l, r, steps[..|steps| - 1]) + Under(step, Differences(Child(l, step), Child(r, step)))
  }

  function Absolute(path: Path, ds: seq<Difference>): seq<Difference> {
    seq(|ds|, i requires 0 <= i < |ds| => ds[i].(path := path + ds[i].path))
  }

  lemma AbsoluteOfUnder(path: Path, step: Step, ds: seq<Difference>)
    ensures Absolute(path, Under(step, ds)) == Absolute(path + [step], ds)
  {
    assert forall i :: 0 <= i < |ds| ==> path + ([step] + ds[i].path) == path + [step] + ds[i].path;
  }

  lemma AbsoluteOfConcatenation(path: Path, a: seq<Difference>, b: seq<Difference>)
    ensures Absolute(path, a + b) == Absolute(path, a) + Absolute(path, b)
  {
  }

  lemma NextAbsolute(path: Path, l: Option<Json>, r: Option<Json>, steps: seq<Step>, step: Step)
    requires l.Some?
    ensures Absolute(path, DifferencesOfSteps(l, r, steps + [step]))
            == Absolute(path, DifferencesOfSteps(l, r, steps)) + Absolute(path + [step], Differences(Child(l, step), Child(r, step)))
  {
    var ds := Differences(Child(l, step), Child(r, step));
    AbsoluteOfUnder(path, step, ds);
    assert (steps + [step])[..|steps|] == steps;
    AbsoluteOfConcatenation(path, DifferencesOfSteps(l, r, steps), Under(step, ds));
  }

  lemma OneChange(path: Path, l: Option<Json>, r: Option<Json>)
    ensures Absolute(path, [Difference([], l, r)]) == [Difference(path, l, r)]
  {
    assert path + [] == path;
  }

  /** The walk: it adds the differences below a path to the ones found before. */
  method Walk(path: Path, l: Option<Json>, r: Option<Json>, changes: seq<Difference>) returns (more: seq<Difference>)
    ensures more == changes + Absolute(path, Differences(l, r))
    decreases Size(l)
  {
    more := changes;
    if BothObjects(l, r) || BothArrays(l, r) {
      var steps := Steps(l, r);
      assert Absolute(path, DifferencesOfSteps(l, r, steps[..0])) == [];
      for n := 0 to |steps|
        invariant more == changes + Absolute(path, DifferencesOfSteps(l, r, steps[..n]))
      {
        var step := steps[n];
        ChildIsSmaller(l, step);
        ghost var done := Absolute(path, DifferencesOfSteps(l, r, steps[..n]));
        ghost var below := Absolute(path + [step], Differences(Child(l, step), Child(r, step)));
        assert steps[..n + 1] == steps[..n] + [step];
        NextAbsolute(path, l, r, steps[..n], step);
        Associate(changes, done, below);
        more := Walk(path + [step], Child(l, step), Child(r, step), more);
      }
      assert steps[..|steps|] == steps;
    } else if !AgreeHere(l, r) {
      OneChange(path, l, r);
      more := more + [Difference(path, l, r)];
    }
  }

  // -------------------------------------------------------------------------
  // What is reported
  // -------------------------------------------------------------------------

  /** What a document has at the end of a path. */
  function At(o: Option<Json>, path: Path): Option<Json>
    decreases |path|
  {
    if path == [] then o else At(Child(o, path[0]), path[1..])
  }

  /** On the way to the end of the path both documents have an object, or both an array. */
  predicate Reached(l: Option<Json>, r: Option<Json>, path: Path)
    decreases |path|
  {
    path == []
    || ((BothObjects(l, r) || BothArrays(l, r)) && Reached(Child(l, path[0]), Child(r, path[0]), path[1..]))
  }

  /** The documents differ at the path, and it is reached. */
  predicate Differs(l: Option<Json>, r: Option<Json>, d: Difference) {
    && Reached(l, r, d.path) && d.left == At(l, d.path) && d.right == At(r, d.path)
    && !AgreeHere(d.left, d.right)
  }

  lemma {:induction false} NewKeysKeeps(left: seq<Member>, right: seq<Member>)
    ensures forall k :: k in NewKeys(left, right) <==> HasKey(right, k) && !HasKey(left, k)
  {
    if right != [] {
      NewKeysKeeps(left, right[1..]);
      forall k
        ensures HasKey(right, k) <==> k == right[0].key || HasKey(right[1..], k)
      {
        if i :| 0 <= i < |right| && right[i].key == k {
          assert i > 0 ==> right[1..][i - 1].key == k;
        }
      }
    }
  }

  /** Where either document has something one step down, the walk takes the step. */
  lemma StepsCover(l: Option<Json>, r: Option<Json>, step: Step)
    requires BothObjects(l, r) || BothArrays(l, r)
    requires Child(l, step).Some? || Child(r, step).Some?
    ensures step in Steps(l, r)
  {
    var steps := Steps(l, r);
    if BothObjects(l, r) {
      var left, right := l.value.members, r.value.members;
      NewKeysKeeps(left, right);
      if HasKey(left, step.key) {
        assert steps[Position(left, step.key)] == step;
      } else {
        assert step.key in NewKeys(left, right);
        var i :| 0 <= i < |NewKeys(left, right)| && NewKeys(left, right)[i] == step.key;
        assert steps[|left| + i] == step;
      }
    } else {
      assert steps[step.i] == step;
    }
  }

  lemma InUnder(step: Step, ds: seq<Difference>, d: Difference)
    ensures d in Under(step, ds) <==> d.path != [] && d.path[0] == step && d.(path := d.path[1..]) in ds
  {
    if d.path != [] && d.path[0] == step && d.(path := d.path[1..]) in ds {
      var i :| 0 <= i < |ds| && ds[i] == d.(path := d.path[1..]);
      assert Under(step, ds)[i].path == d.path;
      assert Under(step, ds)[i] == d;
    }
    if d in Under(step, ds) {
      var i :| 0 <= i < |ds| && Under(step, ds)[i] == d;
      assert d.path[1..] == ds[i].path;
      assert ds[i] == d.(path := d.path[1..]);
    }
  }

  lemma InOneMoreStep(l: Option<Json>, r: Option<Json>, steps: seq<Step>, step: Step, d: Difference)
    requires l.Some?
    ensures d in DifferencesOfSteps(l, r, steps + [step]) <==>
              || d in DifferencesOfSteps(l, r, steps)
              || (d.path != [] && d.path[0] == step && d.(path := d.path[1..]) in Differences(Child(l, step), Child(r, step)))
  {
    var ds := Differences(Child(l, step), Child(r, step));
    assert (steps + [step])[..|steps|] == steps;
    InUnder(step, ds, d);
    assert d in DifferencesOfSteps(l, r, steps) + Under(step, ds)
      <==> d in DifferencesOfSteps(l, r, steps) || d in Under(step, ds);
  }

  lemma {:induction false} InSteps(l: Option<Json>, r: Option<Json>, steps: seq<Step>, d: Difference)
    requires l.Some?
    ensures d in DifferencesOfSteps(l, r, steps) <==>
              d.path != [] && d.path[0] in steps
              && d.(path := d.path[1..]) in Differences(Child(l, d.path[0]), Child(r, d.path[0]))
  {
    if steps != [] {
      var init, step := steps[..|steps| - 1], steps[|steps| - 1];
      assert steps == init + [step];
      InSteps(l, r, init, d);
      InOneMoreStep(l, r, init, step, d);
    }
  }

  /** What is reported is exactly where the documents differ, with what each one has there. */
  lemma {:induction false} ReportedMeansDiffers(l: Option<Json>, r: Option<Json>, d: Difference)
    ensures d in Differences(l, r) <==> Differs(l, r, d)
    decreases |d.path|
  {
    if BothObjects(l, r) || BothArrays(l, r) {
      var steps := Steps(l, r);
      InSteps(l, r, steps, d);
      if d.path != [] {
        var step, below := d.path[0], d.(path := d.path[1..]);
        ReportedMeansDiffers(Child(l, step), Child(r, step), below);
        if Differs(l, r, d) {
          StepsCover(l, r, step);
        }
      }
    }
  }

  lemma {:induction false} NewKeysAreDistinct(left: seq<Member>, right: seq<Member>)
    requires forall i, k :: 0 <= i < k < |right| ==> right[i].key != right[k].key
    ensures forall i, k :: 0 <= i < k < |NewKeys(left, right)| ==> NewKeys(left, right)[i] != NewKeys(left, right)[k]
  {
    if right != [] {
      var rest := NewKeys(left, right[1..]);
      NewKeysAreDistinct(left, right[1..]);
      NewKeysKeeps(left, right[1..]);
      forall i | 0 <= i < |rest|
        ensures rest[i] != right[0].key
      {
        assert HasKey(right[1..], rest[i]);
      }
    }
  }

  lemma StepsAreDistinct(l: Option<Json>, r: Option<Json>)
    requires ValidOption(l) && ValidOption(r)
    ensures forall i, k :: 0 <= i < k < |Steps(l, r)| ==> Steps(l, r)[i] != Steps(l, r)[k]
  {
    if BothObjects(l, r) {
      var left, right := l.value.members, r.value.members;
      NewKeysAreDistinct(left, right);
      NewKeysKeeps(left, right);
      forall i, k | 0 <= i < |left| && 0 <= k < |NewKeys(left, right)|
        ensures left[i].key != NewKeys(left, right)[k]
      {
        assert NewKeys(left, right)[k] in NewKeys(left, right);
      }
    }
  }

  lemma ChildIsValid(l: Option<Json>, step: Step)
    requires ValidOption(l)
    ensures ValidOption(Child(l, step))
  {
  }

  predicate DistinctPaths(ds: seq<Difference>) {
    forall i, k :: 0 <= i < k < |ds| ==> ds[i].path != ds[k].path
  }

  /** No path is reported twice. */
  lemma {:induction false} PathsAreDistinct(l: Option<Json>, r: Option<Json>)
    requires ValidOption(l) && ValidOption(r)
    ensures DistinctPaths(Differences(l, r))
    decreases Size(l), 1, 0
  {
    if BothObjects(l, r) || BothArrays(l, r) {
      StepsAreDistinct(l, r);
      PathsOfStepsAreDistinct(l, r, Steps(l, r));
    }
  }

  lemma {:induction false} PathsOfStepsAreDistinct(l: Option<Json>, r: Option<Json>, steps: seq<Step>)
    requires ValidOption(l) && ValidOption(r) && l.Some?
    requires forall i, k :: 0 <= i < k < |steps| ==> steps[i] != steps[k]
    ensures DistinctPaths(DifferencesOfSteps(l, r, steps))
    decreases Size(l), 0, |steps|
  {
    if steps != [] {
      var init, step := steps[..|steps| - 1], steps[|steps| - 1];
      var before, ds := DifferencesOfSteps(l, r, init), Differences(Child(l, step), Child(r, step));
      PathsOfStepsAreDistinct(l, r, init);
      ChildIsSmaller(l, step);
      ChildIsValid(l, step);
      ChildIsValid(r, step);
      PathsAreDistinct(Child(l, step), Child(r, step));
      forall i | 0 <= i < |before|
        ensures before[i].path != [] && before[i].path[0] != step
      {
        InSteps(l, r, init, before[i]);
      }
      forall i, k | 0 <= i < k < |ds|
        ensures [step] + ds[i].path != [step] + ds[k].path
      {
        assert ([step] + ds[i].path)[1..] == ds[i].path && ([step] + ds[k].path)[1..] == ds[k].path;
      }
    }
  }

  /** No path reported is under another one. */
  lemma {:induction false} NoPathUnderAnother(l: Option<Json>, r: Option<Json>, p: Path, q: Path)
    requires Reached(l, r, q) && p < q
    ensures AgreeHere(At(l, p), At(r, p))
    decreases |p|
  {
    if p != [] {
      assert p[1..] < q[1..];
      NoPathUnderAnother(Child(l, p[0]), Child(r, p[0]), p[1..], q[1..]);
    }
  }

  // -------------------------------------------------------------------------
  // Pointers
  // -------------------------------------------------------------------------

  /** The two replacements of a segment. */
  function Escape(s: string): string {
    Replace(Replace(s, '~', "~0"), '/', "~1")
  }

  /** The same, character by character. */
  function EscapeEach(s: string): string {
    if s == "" then ""
    else (if s[0] == '~' then "~0" else if s[0] == '/' then "~1" else [s[0]]) + EscapeEach(s[1..])
  }

  lemma {:induction false} EscapeIsEach(s: string)
    ensures Escape(s) == EscapeEach(s)
  {
    if s != "" {
      EscapeIsEach(s[1..]);
      var first := if s[0] == '~' then "~0" else [s[0]];
      ReplaceOfConcatenation(first, Replace(s[1..], '~', "~0"), '/', "~1");
      if s[0] == '/' {
        ReplaceOne(s[0], "~1");
      } else {
        NothingToReplace(first, '/', "~1");
      }
    }
  }

  lemma ReplaceOne(c: char, put: string)
    ensures Replace([c], c, put) == put
  {
    assert Replace([c][1..], c, put) == "";
  }

  /** Reading a segment back: section 4 of RFC 6901. */
  function Unescape(s: string): string {
    if s == "" then ""
    else if s[0] == '~' && |s| >= 2 then [if s[1] == '0' then '~' else '/'] + Unescape(s[2..])
    else [s[0]] + Unescape(s[1..])
  }

  lemma {:induction false} UnescapeUndoes(s: string)
    ensures Unescape(EscapeEach(s)) == s
    ensures '/' !in EscapeEach(s)
  {
    if s != "" {
      UnescapeUndoes(s[1..]);
      var e, rest := EscapeEach(s), EscapeEach(s[1..]);
      if s[0] == '~' || s[0] == '/' {
        assert e[2..] == rest;
      } else {
        assert e[1..] == rest;
      }
      assert s == [s[0]] + s[1..];
    }
  }

  function StepText(step: Step): string {
    match step
    case Name(key) => key
    case Place(i) => Decimal(i)
  }

  /** `_pointer` */
  function Pointer(path: Path): string {
    if path == [] then "" else "/" + Escape(StepText(path[0])) + Pointer(path[1..])
  }

  predicate SlashOrEmpty(s: string) {
    s == "" || s[0] == '/'
  }

  lemma PointerIsDelimited(path: Path)
    ensures SlashOrEmpty(Pointer(path))
  {
  }

  /** The first segment of a pointer and the rest of it. */
  lemma SegmentsAreUnique(a: Step, x: string, b: Step, y: string)
    requires a.Name? == b.Name? && SlashOrEmpty(x) && SlashOrEmpty(y)
    requires "/" + Escape(StepText(a)) + x == "/" + Escape(StepText(b)) + y
    ensures a == b && x == y
  {
    var ea, eb := Escape(StepText(a)), Escape(StepText(b));
    Associate("/", ea, x);
    Associate("/", eb, y);
    assert ("/" + (ea + x))[1..] == ea + x && ("/" + (eb + y))[1..] == eb + y;
    EscapeIsEach(StepText(a));
    EscapeIsEach(StepText(b));
    UnescapeUndoes(StepText(a));
    UnescapeUndoes(StepText(b));
    PartsAreUnique(ea, x, eb, y, "/");
    if a.Place? {
      DecimalIsInjective(a.i, b.i);
    }
  }

  /** Below the same documents, a pointer followed by a slash is the beginning of
      another only when the path is. */
  lemma {:induction false} PointersTellPaths(l: Option<Json>, r: Option<Json>, p: Path, q: Path, rest: string)
    requires Reached(l, r, p) && Reached(l, r, q) && AllSteps(l, r, p) && AllSteps(l, r, q)
    requires SlashOrEmpty(rest) && Pointer(q) == Pointer(p) + rest
    ensures p <= q && (rest == "" ==> p == q)
    decreases |p|
  {
    if p == [] {
      assert Pointer(p) + rest == rest;
    } else {
      assert Pointer(p)[0] == '/';
      assert q != [];
      PointerIsDelimited(p[1..]);
      PointerIsDelimited(q[1..]);
      Associate("/" + Escape(StepText(p[0])), Pointer(p[1..]), rest);
      assert SlashOrEmpty(Pointer(p[1..]) + rest) by {
        assert Pointer(p[1..]) == "" ==> Pointer(p[1..]) + rest == rest;
      }
      SegmentsAreUnique(p[0], Pointer(p[1..]) + rest, q[0], Pointer(q[1..]));
      PointersTellPaths(Child(l, p[0]), Child(r, p[0]), p[1..], q[1..], rest);
      assert p == [p[0]] + p[1..] && q == [q[0]] + q[1..];
    }
  }

  /** Each step is of the kind of the documents: a name in objects, a place in arrays. */
  predicate AllSteps(l: Option<Json>, r: Option<Json>, path: Path)
    decreases |path|
  {
    path == []
    || ((if BothObjects(l, r) then path[0].Name? else path[0].Place?)
        && AllSteps(Child(l, path[0]), Child(r, path[0]), path[1..]))
  }

  lemma {:induction false} DifferingPathsHaveSteps(l: Option<Json>, r: Option<Json>, path: Path)
    requires Reached(l, r, path) && !AgreeHere(At(l, path), At(r, path))
    ensures AllSteps(l, r, path)
    decreases |path|
  {
    if path != [] {
      DifferingPathsHaveSteps(Child(l, path[0]), Child(r, path[0]), path[1..]);
    }
  }

  // -------------------------------------------------------------------------
  // json_diff
  // -------------------------------------------------------------------------

  const ESTADO := [Name("estado")]
  const VERSION := [Name("version")]

  /** A reported change; what is missing is printed as null. */
  datatype Change = Change(pointer: string, left: Json, right: Json)

  const NULL := Scalar("null")

  function OrNull(o: Option<Json>): Json {
    match o
    case None => NULL
    case Some(j) => j
  }

  function AsChange(d: Difference): Change {
    Change(Pointer(d.path), OrNull(d.left), OrNull(d.right))
  }

  /** The change is not of the state or of the version of the whole document. */
  predicate Kept(d: Difference) {
    !LeftOut(d.path)
  }

  predicate LeftOut(path: Path) {
    Pointer(path) == "/estado" || Pointer(path) == "/version"
  }

  function Filtered(ds: seq<Difference>): seq<Difference> {
    if ds == [] then [] else (if Kept(ds[0]) then [ds[0]] else []) + Filtered(ds[1..])
  }

  function Changes(ds: seq<Difference>): seq<Change> {
    seq(|ds|, i requires 0 <= i < |ds| => AsChange(ds[i]))
  }

  lemma AbsoluteOfRoot(ds: seq<Difference>)
    ensures [] + Absolute([], ds) == ds
  {
    assert forall i :: 0 <= i < |ds| ==> [] + ds[i].path == ds[i].path;
  }

  /** `json_diff` of two documents. */
  method Diff(before: Json, after: Json) returns (changes: seq<Change>)
    ensures changes == Changes(Filtered(Differences(Some(before), Some(after))))
  {
    var all := Walk([], Some(before), Some(after), []);
    var whole := Differences(Some(before), Some(after));
    AbsoluteOfRoot(whole);
    assert all == whole;
    changes := Changes(Filtered(all));
  }

  lemma {:induction false} FilteredKeeps(ds: seq<Difference>, d: Difference)
    ensures d in Filtered(ds) <==> d in ds && Kept(d)
  {
    if ds != [] {
      FilteredKeeps(ds[1..], d);
      assert ds == [ds[0]] + ds[1..];
    }
  }

  lemma {:induction false} FilteredStaysDistinct(ds: seq<Difference>)
    requires DistinctPaths(ds)
    ensures DistinctPaths(Filtered(ds))
  {
    if ds != [] {
      FilteredStaysDistinct(ds[1..]);
      var rest := Filtered(ds[1..]);
      forall i | 0 <= i < |rest|
        ensures rest[i] in ds[1..]
      {
        FilteredKeeps(ds[1..], rest[i]);
      }
    }
  }

  lemma NoneUnderAnother(l: Option<Json>, r: Option<Json>, p: Path, q: Path)
    requires Reached(l, r, q) && p <= q && !AgreeHere(At(l, p), At(r, p))
    ensures p == q
  {
    if p < q {
      NoPathUnderAnother(l, r, p, q);
    }
  }

  lemma PathsApart(l: Option<Json>, r: Option<Json>, p: Path, q: Path)
    requires Reached(l, r, p) && !AgreeHere(At(l, p), At(r, p))
    requires Reached(l, r, q) && !AgreeHere(At(l, q), At(r, q))
    requires Pointer(p) <= Pointer(q) && SlashOrEmpty(Pointer(q)[|Pointer(p)|..])
    ensures p == q
  {
    var rest := Rest(Pointer(p), Pointer(q));
    DifferingPathsHaveSteps(l, r, p);
    DifferingPathsHaveSteps(l, r, q);
    PointersTellPaths(l, r, p, q, rest);
    NoneUnderAnother(l, r, p, q);
  }

  /** What a text has after another one that it begins with. */
  function Rest(a: string, b: string): (rest: string)
    requires a <= b
    ensures b == a + rest
  {
    b[|a|..]
  }

  /** Two differences at different paths: their pointers differ, and neither followed by
      a slash begins the other. */
  lemma DifferencesAreApart(l: Option<Json>, r: Option<Json>, d: Difference, e: Difference)
    requires d in Differences(l, r) && e in Differences(l, r) && d.path != e.path
    ensures Pointer(d.path) != Pointer(e.path) && !(Pointer(d.path) + "/" <= Pointer(e.path))
  {
    ReportedMeansDiffers(l, r, d);
    ReportedMeansDiffers(l, r, e);
    var p, q := Pointer(d.path), Pointer(e.path);
    assert p + "/" <= q ==> p <= q && q[|p|] == '/' by {
      assert (p + "/")[|p|] == '/' && p <= p + "/";
    }
    if p <= q && SlashOrEmpty(q[|p|..]) {
      PathsApart(l, r, d.path, e.path);
      assert false;
    }
  }

  /** The pointers found are pairwise different, and none is the beginning of another. */
  lemma PointersAreApart(before: Json, after: Json, i: nat, k: nat)
    requires Valid(before) && Valid(after)
    requires i < |Differences(Some(before), Some(after))| && k < |Differences(Some(before), Some(after))| && i != k
    ensures var ds := Differences(Some(before), Some(after));
            Pointer(ds[i].path) != Pointer(ds[k].path) && !(Pointer(ds[i].path) + "/" <= Pointer(ds[k].path))
  {
    var ds := Differences(Some(before), Some(after));
    PathsAreDistinct(Some(before), Some(after));
    DifferencesAreApart(Some(before), Some(after), ds[i], ds[k]);
  }

  /** The pointers that `json_diff` reports are pairwise different, and none is the
      beginning of another up to a slash: no reported place lies under another. */
  lemma ReportIsApart(before: Json, after: Json, changes: seq<Change>, i: nat, k: nat)
    requires Valid(before) && Valid(after)
    requires changes == Changes(Filtered(Differences(Some(before), Some(after))))
    requires i < |changes| && k < |changes| && i != k
    ensures changes[i].pointer != changes[k].pointer && !(changes[i].pointer + "/" <= changes[k].pointer)
  {
    var l, r := Some(before), Some(after);
    var kept := Filtered(Differences(l, r));
    PathsAreDistinct(l, r);
    FilteredStaysDistinct(Differences(l, r));
    FilteredKeeps(Differences(l, r), kept[i]);
    FilteredKeeps(Differences(l, r), kept[k]);
    DifferencesAreApart(l, r, kept[i], kept[k]);
  }

  // -------------------------------------------------------------------------
  // When nothing is reported
  // -------------------------------------------------------------------------

  /** Equality of documents; the order of the members of an object does not count. */
  predicate Same(l: Option<Json>, r: Option<Json>)
    decreases Size(l)
  {
    AgreeHere(l, r)
    && forall i :: 0 <= i < |Steps(l, r)| ==>
         (ChildIsSmaller(l, Steps(l, r)[i]); Same(Child(l, Steps(l, r)[i]), Child(r, Steps(l, r)[i])))
  }

  /** The documents are the same exactly when they agree along every path. */
  lemma {:induction false} SameMeansAgreesEverywhere(l: Option<Json>, r: Option<Json>, path: Path)
    requires Same(l, r)
    ensures AgreeHere(At(l, path), At(r, path))
    decreases |path|
  {
    if path != [] {
      var step := path[0];
      if (BothObjects(l, r) || BothArrays(l, r)) && (Child(l, step).Some? || Child(r, step).Some?) {
        StepsCover(l, r, step);
        var i :| 0 <= i < |Steps(l, r)| && Steps(l, r)[i] == step;
        SameMeansAgreesEverywhere(Child(l, step), Child(r, step), path[1..]);
      }
    }
  }

  lemma {:induction false} NoDifferencesMeansSame(l: Option<Json>, r: Option<Json>)
    ensures Differences(l, r) == [] <==> Same(l, r)
    decreases Size(l)
  {
    if BothObjects(l, r) || BothArrays(l, r) {
      forall i | 0 <= i < |Steps(l, r)|
        ensures var step := Steps(l, r)[i];
                Differences(Child(l, step), Child(r, step)) == [] <==> Same(Child(l, step), Child(r, step))
      {
        ChildIsSmaller(l, Steps(l, r)[i]);
        NoDifferencesMeansSame(Child(l, Steps(l, r)[i]), Child(r, Steps(l, r)[i]));
      }
      NoneOfSteps(l, r, Steps(l, r));
    }
  }

  lemma {:induction false} NoneOfSteps(l: Option<Json>, r: Option<Json>, steps: seq<Step>)
    requires l.Some?
    ensures DifferencesOfSteps(l, r, steps) == [] <==> forall step :: step in steps ==> Differences(Child(l, step), Child(r, step)) == []
  {
    if steps != [] {
      var init, last := steps[..|steps| - 1], steps[|steps| - 1];
      NoneOfSteps(l, r, init);
      assert steps == init + [last];
      assert |Under(last, Differences(Child(l, last), Child(r, last)))| == |Differences(Child(l, last), Child(r, last))|;
    }
  }

  /** A scalar, a missing value, or values of different kinds: a difference there is one whole. */
  predicate Whole(l: Option<Json>, r: Option<Json>) {
    !BothObjects(l, r) && !BothArrays(l, r)
  }

  lemma PlainPointer(key: string)
    requires '~' !in key && '/' !in key
    ensures Pointer([Name(key)]) == "/" + key
  {
    NothingToReplace(key, '~', "~0");
    NothingToReplace(key, '/', "~1");
    assert Pointer([Name(key)][1..]) == "";
  }

  lemma EstadoByName(path: Path)
    requires path != [] && path[0].Name?
    ensures Pointer(path) == "/estado" <==> path == ESTADO
  {
    TopPointer(path, "estado");
    assert "/" + "estado" == "/estado";
  }

  lemma VersionByName(path: Path)
    requires path != [] && path[0].Name?
    ensures Pointer(path) == "/version" <==> path == VERSION
  {
    TopPointer(path, "version");
    assert "/" + "version" == "/version";
  }

  lemma LeftOutByName(path: Path)
    requires path != [] && path[0].Name?
    ensures LeftOut(path) <==> path == ESTADO || path == VERSION
  {
    EstadoByName(path);
    VersionByName(path);
  }

  /** A difference left out is at the state or at the version of two objects. */
  lemma LeftOutMeans(l: Option<Json>, r: Option<Json>, path: Path)
    requires Reached(l, r, path) && !AgreeHere(At(l, path), At(r, path))
    ensures LeftOut(path) <==> BothObjects(l, r) && (path == ESTADO || path == VERSION)
  {
    if path == [] {
      assert |Pointer(path)| == 0;
    } else {
      DifferingPathsHaveSteps(l, r, path);
      if BothObjects(l, r) {
        LeftOutByName(path);
      } else {
        PlaceIsNotAWord(path);
      }
    }
  }

  lemma TopPointer(path: Path, key: string)
    requires path != [] && path[0].Name? && key != "" && '~' !in key && '/' !in key
    ensures Pointer(path) == "/" + key <==> path == [Name(key)]
  {
    PlainPointer(key);
    if Pointer(path) == "/" + key {
      PointerIsDelimited(path[1..]);
      NothingToReplace(key, '~', "~0");
      NothingToReplace(key, '/', "~1");
      assert "/" + Escape(key) + "" == "/" + key;
      SegmentsAreUnique(path[0], Pointer(path[1..]), Name(key), "");
      assert path[1..] == [];
      assert path == [path[0]];
    }
  }

  lemma PlaceIsNotAWord(path: Path)
    requires path != [] && path[0].Place?
    ensures Pointer(path) != "/estado" && Pointer(path) != "/version"
  {
    var numeral := Decimal(path[0].i);
    DecimalIsDigits(path[0].i);
    EscapeIsEach(numeral);
    assert EscapeEach(numeral)[0] == numeral[0];
    assert Pointer(path)[1] == numeral[0];
    assert !IsDigit("/estado"[1]) && !IsDigit("/version"[1]);
  }

  /** The same at a key of two objects. */
  predicate SameAt(l: Json, r: Json, key: string)
    requires l.Object? && r.Object?
  {
    Same(Get(l.members, key), Get(r.members, key))
  }

  /** Nothing is reported exactly when the documents are the same, but for a state or a
      version of two objects that differ as a whole: a difference inside them counts. */
  lemma NothingReportedMeans(before: Json, after: Json)
    ensures Filtered(Differences(Some(before), Some(after))) == [] <==>
              if before.Object? && after.Object? then
                forall key :: SameAt(before, after, key)
                              || (key in {"estado", "version"} && Whole(Get(before.members, key), Get(after.members, key)))
              else Same(Some(before), Some(after))
  {
    var l, r := Some(before), Some(after);
    if before.Object? && after.Object? {
      if Filtered(Differences(l, r)) == [] {
        forall key
          ensures SameAt(before, after, key)
                  || (key in {"estado", "version"} && Whole(Get(before.members, key), Get(after.members, key)))
        {
          NothingReportedAt(before, after, key);
        }
      }
      if forall key :: SameAt(before, after, key)
                       || (key in {"estado", "version"} && Whole(Get(before.members, key), Get(after.members, key))) {
        forall d | d in Differences(l, r)
          ensures !Kept(d)
        {
          ReportedIsLeftOut(before, after, d);
        }
        NoneKept(Differences(l, r));
      }
    } else {
      NoDifferencesMeansSame(l, r);
      forall d | d in Differences(l, r)
        ensures Kept(d)
      {
        ReportedMeansDiffers(l, r, d);
        LeftOutMeans(l, r, d.path);
      }
      AllKept(Differences(l, r));
    }
  }

  lemma {:induction false} NoneKept(ds: seq<Difference>)
    requires forall d :: d in ds ==> !Kept(d)
    ensures Filtered(ds) == []
  {
    if ds != [] {
      NoneKept(ds[1..]);
    }
  }

  lemma {:induction false} AllKept(ds: seq<Difference>)
    requires forall d :: d in ds ==> Kept(d)
    ensures Filtered(ds) == ds
  {
    if ds != [] {
      AllKept(ds[1..]);
      assert ds == [ds[0]] + ds[1..];
    }
  }

  lemma NothingReportedAt(before: Json, after: Json, key: string)
    requires before.Object? && after.Object? && Filtered(Differences(Some(before), Some(after))) == []
    ensures SameAt(before, after, key)
            || (key in {"estado", "version"} && Whole(Get(before.members, key), Get(after.members, key)))
  {
    var l, r, step := Some(before), Some(after), Name(key);
    var ds := Differences(Child(l, step), Child(r, step));
    NoDifferencesMeansSame(Child(l, step), Child(r, step));
    if ds != [] {
      var d := ds[0].(path := [step] + ds[0].path);
      assert ds[0] in ds;
      ReportedMeansDiffers(Child(l, step), Child(r, step), ds[0]);
      assert d.path[1..] == ds[0].path;
      assert Differs(l, r, d);
      ReportedMeansDiffers(l, r, d);
      FilteredKeeps(Differences(l, r), d);
      LeftOutMeans(l, r, d.path);
      assert |d.path| == 1;
      assert ds[0].path == [];
    }
  }

  lemma WholeIsTheEnd(l: Option<Json>, r: Option<Json>, path: Path)
    requires Whole(l, r) && Reached(l, r, path)
    ensures path == []
  {
  }

  lemma ReportedIsLeftOut(before: Json, after: Json, d: Difference)
    requires before.Object? && after.Object? && d in Differences(Some(before), Some(after))
    requires forall key :: SameAt(before, after, key)
                           || (key in {"estado", "version"} && Whole(Get(before.members, key), Get(after.members, key)))
    ensures !Kept(d)
  {
    var l, r := Some(before), Some(after);
    ReportedMeansDiffers(l, r, d);
    DifferingPathsHaveSteps(l, r, d.path);
    var key, rest := d.path[0].key, d.path[1..];
    assert SameAt(before, after, key)
           || (key in {"estado", "version"} && Whole(Get(before.members, key), Get(after.members, key)));
    if SameAt(before, after, key) {
      SameMeansAgreesEverywhere(Child(l, Name(key)), Child(r, Name(key)), rest);
      assert false;
    }
    WholeIsTheEnd(Child(l, Name(key)), Child(r, Name(key)), rest);
    assert d.path == [Name(key)];
    LeftOutMeans(l, r, d.path);
  }

  /** Where neither the place nor one above it is reported or left out, the documents agree. */
  lemma {:induction false} UnreportedPlacesAgree(l: Option<Json>, r: Option<Json>, path: Path)
    requires forall d :: d in Differences(l, r) ==> !(d.path <= path)
    ensures AgreeHere(At(l, path), At(r, path))
    decreases |path|
  {
    var here := Difference([], l, r);
    ReportedMeansDiffers(l, r, here);
    assert here.path <= path;
    if path != [] {
      if BothObjects(l, r) || BothArrays(l, r) {
        forall d | d in Differences(Child(l, path[0]), Child(r, path[0]))
          ensures !(d.path <= path[1..])
        {
          var above := d.(path := [path[0]] + d.path);
          assert above.path[1..] == d.path;
          ReportedMeansDiffers(Child(l, path[0]), Child(r, path[0]), d);
          ReportedMeansDiffers(l, r, above);
          assert d.path <= path[1..] ==> above.path <= path;
        }
        UnreportedPlacesAgree(Child(l, path[0]), Child(r, path[0]), path[1..]);
      }
    }
  }

  /** A missing value and a null one make the same change. */
  lemma MissingLooksLikeNull(key: string, value: string)
    requires value != "null"
    ensures var after := Object([Member(key, Scalar(value))]);
            var without, withNull := Object([]), Object([Member(key, NULL)]);
            && !Same(Some(without), Some(withNull))
            && Changes(Differences(Some(without), Some(after))) == Changes(Differences(Some(withNull), Some(after)))
  {
    var after := Some(Object([Member(key, Scalar(value))]));
    var without, withNull := Some(Object([])), Some(Object([Member(key, NULL)]));
    OneKey(without, after, key);
    OneKey(withNull, after, key);
    MissingIsNotNull(key);
  }

  lemma MissingIsNotNull(key: string)
    ensures !Same(Some(Object([])), Some(Object([Member(key, NULL)])))
  {
    var without, withNull := Some(Object([])), Some(Object([Member(key, NULL)]));
    OneKey(without, withNull, key);
    NoDifferencesMeansSame(without, withNull);
  }

  lemma OneKey(l: Option<Json>, r: Option<Json>, key: string)
    requires BothObjects(l, r) && |r.value.members| == 1 && r.value.members[0].key == key
    requires l.value.members == [] || (|l.value.members| == 1 && l.value.members[0].key == key)
    requires !AgreeHere(Get(l.value.members, key), Get(r.value.members, key))
    ensures Differences(l, r) == [Difference([Name(key)], Get(l.value.members, key), Get(r.value.members, key))]
  {
    var left, right := l.value.members, r.value.members;
    assert NewKeys(left, right[1..]) == [];
    if left != [] {
      assert HasKey(left, key);
    } else {
      assert !HasKey(left, key);
    }
    assert AllKeys(left, right) == [key];
    assert Steps(l, r) == [Name(key)];
    var x, y := Child(l, Name(key)), Child(r, Name(key));
    assert Differences(x, y) == [Difference([], x, y)];
    assert [Name(key)] + [] == [Name(key)];
    assert [Name(key)][..0] == [];
    assert DifferencesOfSteps(l, r, [Name(key)]) == Under(Name(key), Differences(x, y));
  }
}
