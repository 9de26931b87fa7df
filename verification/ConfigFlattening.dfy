/** Flattening a configuration to routes and comparing two of them (`aplanar`,
    `diferencias_de_config`). */
module ConfigFlattening {
  import opened Wrappers
  import opened Text

  /** A scalar, up to the equality of the language: a boolean is the number it equals. */
  datatype Scalar = Null | Number(n: real) | Letters(s: string)

  datatype Entry = Entry(key: string, value: Tree)

  datatype Tree = Leaf(value: Scalar) | Dict(entries: seq<Entry>) | Items(list: seq<Tree>)

  /** What a route may lead to: an empty dictionary, a scalar, or a list of scalars. */
  datatype Flat = EmptyDict | One(value: Scalar) | Scalars(values: seq<Scalar>)

  // -------------------------------------------------------------------------
  // Flattening
  // -------------------------------------------------------------------------

  predicate IsTable(t: Tree) {
    !t.Leaf?
  }

  /** A list with a dictionary or a list in it is traversed; one of scalars is a value. */
  predicate Traversed(list: seq<Tree>) {
    exists i :: 0 <= i < |list| && IsTable(list[i])
  }

  function ScalarsOf(list: seq<Tree>): seq<Scalar>
    requires !Traversed(list)
  {
    seq(|list|, i requires 0 <= i < |list| => assert !IsTable(list[i]); list[i].value)
  }

  function Child(prefix: string, key: string): string {
    if prefix == "" then key else prefix + "." + key
  }

  function Nth(prefix: string, i: nat): string {
    prefix + "[" + Decimal(i) + "]"
  }

  function Flatten(t: Tree, prefix: string): map<string, Flat>
    decreases t, 1, 0
  {
    match t
    case Leaf(value) => map[prefix := One(value)]
    case Dict(entries) =>
      if entries == [] then (if prefix == "" then map[] else map[prefix := EmptyDict])
      else FlattenEntries(t, |entries|, prefix)
    case Items(list) =>
      if Traversed(list) then FlattenItems(t, |list|, prefix)
      else map[prefix := Scalars(ScalarsOf(list))]
  }

  /** The first `n` entries; where two give the same route, the later one stays. */
  function FlattenEntries(t: Tree, n: nat, prefix: string): map<string, Flat>
    requires t.Dict? && n <= |t.entries|
    decreases t, 0, n
  {
    if n == 0 then map[]
    else FlattenEntries(t, n - 1, prefix) + Flatten(t.entries[n - 1].value, Child(prefix, t.entries[n - 1].key))
  }

  function FlattenItems(t: Tree, n: nat, prefix: string): map<string, Flat>
    requires t.Items? && n <= |t.list|
    decreases t, 0, n
  {
    if n == 0 then map[]
    else FlattenItems(t, n - 1, prefix) + Flatten(t.list[n - 1], Nth(prefix, n - 1))
  }

  // -------------------------------------------------------------------------
  // Paths: the independent reading of a tree
  // -------------------------------------------------------------------------

  datatype Step = Field(key: string) | Index(i: nat)

  type Path = seq<Step>

  predicate GoodKey(key: string) {
    key != "" && '.' !in key && '[' !in key
  }

  /** Distinct keys, none empty and none with "." or "[". */
  predicate GoodKeys(t: Tree)
    decreases t
  {
    match t
    case Leaf(_) => true
    case Dict(entries) =>
      && (forall i, j :: 0 <= i < j < |entries| ==> entries[i].key != entries[j].key)
      && forall i :: 0 <= i < |entries| ==> GoodKey(entries[i].key) && GoodKeys(entries[i].value)
    case Items(list) => forall i :: 0 <= i < |list| ==> GoodKeys(list[i])
  }

  /** The subtree after one step. */
  function Down(t: Tree, step: Step): Option<Tree> {
    match t
    case Leaf(_) => None
    case Dict(entries) =>
      if step.Field? && exists i :: 0 <= i < |entries| && entries[i].key == step.key then
        Some(entries[Position(entries, step.key)].value)
      else None
    case Items(list) => if step.Index? && Traversed(list) && step.i < |list| then Some(list[step.i]) else None
  }

  function Position(entries: seq<Entry>, key: string): (i: nat)
    requires exists i :: 0 <= i < |entries| && entries[i].key == key
    ensures i < |entries| && entries[i].key == key
  {
    if entries[0].key == key then 0
    else
      assert entries[1..] != [];
      assert exists i :: 0 <= i < |entries[1..]| && entries[1..][i].key == key by {
        var i :| 0 <= i < |entries| && entries[i].key == key;
        assert entries[1..][i - 1].key == key;
      }
      1 + Position(entries[1..], key)
  }

  /** What a tree is at its end of a path, if it is not traversed further. */
  function Here(t: Tree): Option<Flat> {
    match t
    case Leaf(value) => Some(One(value))
    case Dict(entries) => if entries == [] then Some(EmptyDict) else None
    case Items(list) => if Traversed(list) then None else Some(Scalars(ScalarsOf(list)))
  }

  function ValueAt(t: Tree, path: Path): Option<Flat>
    decreases |path|
  {
    if path == [] then Here(t)
    else
      match Down(t, path[0])
      case None => None
      case Some(below) => ValueAt(below, path[1..])
  }

  function StepText(step: Step): string {
    match step
    case Field(key) => "." + key
    case Index(i) => "[" + Decimal(i) + "]"
  }

  /** The text of a path after a prefix that is not empty. */
  function Tail(path: Path): string {
    if path == [] then "" else StepText(path[0]) + Tail(path[1..])
  }

  predicate GoodPath(path: Path) {
    forall i :: 0 <= i < |path| && path[i].Field? ==> GoodKey(path[i].key)
  }

  // -------------------------------------------------------------------------
  // Routes tell paths apart
  // -------------------------------------------------------------------------

  predicate Delimited(s: string) {
    s == "" || s[0] == '.' || s[0] == '['
  }

  lemma FieldIsInjective(a: string, x: string, b: string, y: string)
    requires GoodKey(a) && GoodKey(b) && Delimited(x) && Delimited(y)
    requires "." + a + x == "." + b + y
    ensures a == b && x == y
  {
    assert ("." + a + x)[1..] == a + x && ("." + b + y)[1..] == b + y;
    PartsAreUnique(a, x, b, y, ".[");
  }

  lemma BracketsOpen(numeral: string, x: string)
    ensures ("[" + numeral + "]" + x)[1..] == numeral + ("]" + x)
  {
  }

  lemma IndexIsInjective(a: nat, x: string, b: nat, y: string)
    requires "[" + Decimal(a) + "]" + x == "[" + Decimal(b) + "]" + y
    ensures a == b && x == y
  {
    BracketsOpen(Decimal(a), x);
    BracketsOpen(Decimal(b), y);
    DecimalIsDigits(a);
    DecimalIsDigits(b);
    PartsAreUnique(Decimal(a), "]" + x, Decimal(b), "]" + y, "]");
    assert ("]" + x)[1..] == x && ("]" + y)[1..] == y;
    DecimalIsInjective(a, b);
  }

  lemma StepIsInjective(a: Step, x: string, b: Step, y: string)
    requires (a.Field? ==> GoodKey(a.key)) && (b.Field? ==> GoodKey(b.key))
    requires Delimited(x) && Delimited(y) && StepText(a) + x == StepText(b) + y
    ensures a == b && x == y
  {
    assert (StepText(a) + x)[0] == if a.Field? then '.' else '[';
    assert (StepText(b) + y)[0] == if b.Field? then '.' else '[';
    if a.Field? {
      FieldIsInjective(a.key, x, b.key, y);
    } else {
      IndexIsInjective(a.i, x, b.i, y);
    }
  }

  /** Two paths with the same text are the same path. */
  lemma {:induction false} TailIsInjective(a: Path, b: Path)
    requires GoodPath(a) && GoodPath(b) && Tail(a) == Tail(b)
    ensures a == b
  {
    if a != [] && b != [] {
      StepIsInjective(a[0], Tail(a[1..]), b[0], Tail(b[1..]));
      TailIsInjective(a[1..], b[1..]);
      assert a == [a[0]] + a[1..] && b == [b[0]] + b[1..];
    }
  }

  // -------------------------------------------------------------------------
  // The flattened map is the tree read along its paths
  // -------------------------------------------------------------------------

  function Start(prefix: string, step: Step): string {
    match step
    case Field(key) => Child(prefix, key)
    case Index(i) => Nth(prefix, i)
  }

  /** The route of a path after a prefix, which may be empty. */
  function Route(prefix: string, path: Path): string {
    if path == [] then prefix else Start(prefix, path[0]) + Tail(path[1..])
  }

  lemma RouteAfterAPrefix(prefix: string, path: Path)
    requires prefix != ""
    ensures Route(prefix, path) == prefix + Tail(path)
  {
    if path != [] {
      StartAfterAPrefix(prefix, path[0], Tail(path[1..]));
    }
  }

  lemma StartAfterAPrefix(prefix: string, step: Step, rest: string)
    requires prefix != "" || step.Index?
    ensures Start(prefix, step) + rest == prefix + (StepText(step) + rest)
  {
    assert Start(prefix, step) == prefix + StepText(step);
    Associate(prefix, StepText(step), rest);
  }

  /** A step further: the route of the rest, after the prefix of the first step. */
  lemma RouteOfRest(prefix: string, step: Step, rest: Path)
    requires step.Field? ==> step.key != ""
    ensures Route(prefix, [step] + rest) == Route(Start(prefix, step), rest)
  {
    assert ([step] + rest)[1..] == rest;
    RouteAfterAPrefix(Start(prefix, step), rest);
  }

  lemma StartIsInjective(prefix: string, a: Step, x: string, b: Step, y: string)
    requires a.Field? == b.Field? && (a.Field? ==> GoodKey(a.key) && GoodKey(b.key))
    requires Delimited(x) && Delimited(y) && Start(prefix, a) + x == Start(prefix, b) + y
    ensures a == b && x == y
  {
    if prefix == "" && a.Field? {
      PartsAreUnique(a.key, x, b.key, y, ".[");
    } else {
      StartAfterAPrefix(prefix, a, x);
      StartAfterAPrefix(prefix, b, y);
      assert (prefix + (StepText(a) + x))[|prefix|..] == StepText(a) + x;
      assert (prefix + (StepText(b) + y))[|prefix|..] == StepText(b) + y;
      StepIsInjective(a, x, b, y);
    }
  }

  /** Every route of the map is the route of a path with that value ... */
  lemma {:induction false} EveryRouteIsAPath(t: Tree, prefix: string, r: string) returns (path: Path)
    requires GoodKeys(t) && r in Flatten(t, prefix)
    ensures GoodPath(path) && r == Route(prefix, path) && ValueAt(t, path) == Some(Flatten(t, prefix)[r])
    decreases t, 1, 0
  {
    match t
    case Leaf(_) => path := [];
    case Dict(entries) =>
      if entries == [] {
        path := [];
      } else {
        path := EveryEntryRouteIsAPath(t, |entries|, prefix, r);
      }
    case Items(list) =>
      if Traversed(list) {
        path := EveryItemRouteIsAPath(t, |list|, prefix, r);
      } else {
        path := [];
      }
  }

  lemma PositionIsUnique(entries: seq<Entry>, i: nat)
    requires i < |entries| && forall a, b :: 0 <= a < b < |entries| ==> entries[a].key != entries[b].key
    ensures Position(entries, entries[i].key) == i
  {
  }

  lemma {:induction false} EveryEntryRouteIsAPath(t: Tree, n: nat, prefix: string, r: string) returns (path: Path)
    requires t.Dict? && GoodKeys(t) && n <= |t.entries| && r in FlattenEntries(t, n, prefix)
    ensures path != [] && GoodPath(path) && r == Route(prefix, path) && ValueAt(t, path) == Some(FlattenEntries(t, n, prefix)[r])
    ensures path[0].Field? && exists i :: 0 <= i < n && t.entries[i].key == path[0].key
    decreases t, 0, n
  {
    var entry := t.entries[n - 1];
    if r in Flatten(entry.value, Child(prefix, entry.key)) {
      var rest := EveryRouteIsAPath(entry.value, Child(prefix, entry.key), r);
      path := [Field(entry.key)] + rest;
      RouteOfRest(prefix, Field(entry.key), rest);
      PositionIsUnique(t.entries, n - 1);
      assert path[1..] == rest;
    } else {
      path := EveryEntryRouteIsAPath(t, n - 1, prefix, r);
    }
  }

  lemma {:induction false} EveryItemRouteIsAPath(t: Tree, n: nat, prefix: string, r: string) returns (path: Path)
    requires t.Items? && GoodKeys(t) && Traversed(t.list) && n <= |t.list| && r in FlattenItems(t, n, prefix)
    ensures path != [] && GoodPath(path) && r == Route(prefix, path) && ValueAt(t, path) == Some(FlattenItems(t, n, prefix)[r])
    ensures path[0].Index? && path[0].i < n
    decreases t, 0, n
  {
    if r in Flatten(t.list[n - 1], Nth(prefix, n - 1)) {
      var rest := EveryRouteIsAPath(t.list[n - 1], Nth(prefix, n - 1), r);
      path := [Index(n - 1)] + rest;
      RouteOfRest(prefix, Index(n - 1), rest);
      assert path[1..] == rest;
    } else {
      path := EveryItemRouteIsAPath(t, n - 1, prefix, r);
    }
  }

  /** ... and every path with a value is a route of the map with that value. */
  lemma {:induction false} EveryPathIsARoute(t: Tree, prefix: string, path: Path)
    requires GoodKeys(t) && ValueAt(t, path).Some? && (prefix != "" || path != [])
    ensures Route(prefix, path) in Flatten(t, prefix)
    ensures Flatten(t, prefix)[Route(prefix, path)] == ValueAt(t, path).value
    decreases t, 1, 0
  {
    if path != [] {
      var step, rest := path[0], path[1..];
      assert path == [step] + rest;
      match t {
        case Dict(entries) =>
          var i := Position(entries, step.key);
          RouteOfRest(prefix, step, rest);
          EveryPathIsARoute(entries[i].value, Child(prefix, step.key), rest);
          LaterEntriesKeep(t, prefix, i, Route(prefix, path));
        case Items(list) =>
          RouteOfRest(prefix, step, rest);
          EveryPathIsARoute(list[step.i], Nth(prefix, step.i), rest);
          LaterItemsKeep(t, prefix, step.i, Route(prefix, path));
      }
    }
  }

  lemma EntriesHaveOtherRoutes(t: Tree, prefix: string, i: nat, j: nat, r: string)
    requires t.Dict? && GoodKeys(t) && i < j < |t.entries|
    requires r in Flatten(t.entries[i].value, Child(prefix, t.entries[i].key))
    ensures r !in Flatten(t.entries[j].value, Child(prefix, t.entries[j].key))
  {
    var a, b := t.entries[i], t.entries[j];
    if r in Flatten(b.value, Child(prefix, b.key)) {
      var x := EveryRouteIsAPath(a.value, Child(prefix, a.key), r);
      var y := EveryRouteIsAPath(b.value, Child(prefix, b.key), r);
      RouteAfterAPrefix(Child(prefix, a.key), x);
      RouteAfterAPrefix(Child(prefix, b.key), y);
      StartIsInjective(prefix, Field(a.key), Tail(x), Field(b.key), Tail(y));
      assert false;
    }
  }

  lemma {:induction false} NotOverwritten(t: Tree, n: nat, prefix: string, i: nat, r: string)
    requires t.Dict? && i < n <= |t.entries|
    requires r in Flatten(t.entries[i].value, Child(prefix, t.entries[i].key))
    requires forall j :: i < j < n ==> r !in Flatten(t.entries[j].value, Child(prefix, t.entries[j].key))
    ensures r in FlattenEntries(t, n, prefix)
    ensures FlattenEntries(t, n, prefix)[r] == Flatten(t.entries[i].value, Child(prefix, t.entries[i].key))[r]
    decreases n
  {
    OneMoreEntry(t, n, prefix);
    if i < n - 1 {
      NotOverwritten(t, n - 1, prefix, i, r);
    }
  }

  /** A route of one entry is not overwritten by the later ones. */
  lemma LaterEntriesKeep(t: Tree, prefix: string, i: nat, r: string)
    requires t.Dict? && GoodKeys(t) && i < |t.entries|
    requires r in Flatten(t.entries[i].value, Child(prefix, t.entries[i].key))
    ensures r in FlattenEntries(t, |t.entries|, prefix)
    ensures FlattenEntries(t, |t.entries|, prefix)[r] == Flatten(t.entries[i].value, Child(prefix, t.entries[i].key))[r]
  {
    forall j | i < j < |t.entries|
      ensures r !in Flatten(t.entries[j].value, Child(prefix, t.entries[j].key))
    {
      EntriesHaveOtherRoutes(t, prefix, i, j, r);
    }
    NotOverwritten(t, |t.entries|, prefix, i, r);
  }

  lemma OneMoreEntry(t: Tree, n: nat, prefix: string)
    requires t.Dict? && 1 <= n <= |t.entries|
    ensures FlattenEntries(t, n, prefix)
            == FlattenEntries(t, n - 1, prefix) + Flatten(t.entries[n - 1].value, Child(prefix, t.entries[n - 1].key))
  {
  }

  lemma ItemsHaveOtherRoutes(t: Tree, prefix: string, i: nat, j: nat, r: string)
    requires t.Items? && GoodKeys(t) && i < j < |t.list|
    requires r in Flatten(t.list[i], Nth(prefix, i))
    ensures r !in Flatten(t.list[j], Nth(prefix, j))
  {
    if r in Flatten(t.list[j], Nth(prefix, j)) {
      var x := EveryRouteIsAPath(t.list[i], Nth(prefix, i), r);
      var y := EveryRouteIsAPath(t.list[j], Nth(prefix, j), r);
      RouteAfterAPrefix(Nth(prefix, i), x);
      RouteAfterAPrefix(Nth(prefix, j), y);
      StartIsInjective(prefix, Index(i), Tail(x), Index(j), Tail(y));
      assert false;
    }
  }

  lemma {:induction false} ItemNotOverwritten(t: Tree, n: nat, prefix: string, i: nat, r: string)
    requires t.Items? && i < n <= |t.list|
    requires r in Flatten(t.list[i], Nth(prefix, i))
    requires forall j :: i < j < n ==> r !in Flatten(t.list[j], Nth(prefix, j))
    ensures r in FlattenItems(t, n, prefix)
    ensures FlattenItems(t, n, prefix)[r] == Flatten(t.list[i], Nth(prefix, i))[r]
    decreases n
  {
    OneMoreItem(t, n, prefix);
    if i < n - 1 {
      ItemNotOverwritten(t, n - 1, prefix, i, r);
    }
  }

  /** Nor is a route of one item. */
  lemma LaterItemsKeep(t: Tree, prefix: string, i: nat, r: string)
    requires t.Items? && GoodKeys(t) && i < |t.list|
    requires r in Flatten(t.list[i], Nth(prefix, i))
    ensures r in FlattenItems(t, |t.list|, prefix)
    ensures FlattenItems(t, |t.list|, prefix)[r] == Flatten(t.list[i], Nth(prefix, i))[r]
  {
    forall j | i < j < |t.list|
      ensures r !in Flatten(t.list[j], Nth(prefix, j))
    {
      ItemsHaveOtherRoutes(t, prefix, i, j, r);
    }
    ItemNotOverwritten(t, |t.list|, prefix, i, r);
  }

  lemma OneMoreItem(t: Tree, n: nat, prefix: string)
    requires t.Items? && 1 <= n <= |t.list|
    ensures FlattenItems(t, n, prefix) == FlattenItems(t, n - 1, prefix) + Flatten(t.list[n - 1], Nth(prefix, n - 1))
  {
  }

  // -------------------------------------------------------------------------
  // Equal maps, equal trees
  // -------------------------------------------------------------------------

  /** Equality of trees; the order of the entries of a dictionary does not count. */
  predicate SameTree(a: Tree, b: Tree)
    decreases a
  {
    match a
    case Leaf(value) => b == a
    case Dict(entries) =>
      && b.Dict?
      && (forall i :: 0 <= i < |entries| ==> HasKey(b, entries[i].key) && SameTree(entries[i].value, At(b, entries[i].key)))
      && (forall j :: 0 <= j < |b.entries| ==> HasKey(a, b.entries[j].key))
    case Items(list) =>
      && b.Items? && |list| == |b.list|
      && forall i :: 0 <= i < |list| ==> SameTree(list[i], b.list[i])
  }

  predicate HasKey(t: Tree, key: string) {
    t.Dict? && exists i :: 0 <= i < |t.entries| && t.entries[i].key == key
  }

  function At(t: Tree, key: string): Tree
    requires HasKey(t, key)
  {
    t.entries[Position(t.entries, key)].value
  }

  /** Every tree has a value at the end of some path. */
  lemma {:induction false} SomePath(t: Tree) returns (path: Path)
    requires GoodKeys(t)
    ensures GoodPath(path) && ValueAt(t, path).Some?
    decreases t
  {
    match t
    case Leaf(_) => path := [];
    case Dict(entries) =>
      if entries == [] {
        path := [];
      } else {
        var rest := SomePath(entries[0].value);
        path := [Field(entries[0].key)] + rest;
        assert path[1..] == rest;
      }
    case Items(list) =>
      if Traversed(list) {
        var rest := SomePath(list[0]);
        path := [Index(0)] + rest;
        assert path[1..] == rest;
      } else {
        path := [];
      }
  }

  /** The two trees have the same values along every path. */
  ghost predicate SameValues(a: Tree, b: Tree) {
    forall path: Path :: GoodPath(path) ==> ValueAt(a, path) == ValueAt(b, path)
  }

  lemma SameBelow(a: Tree, b: Tree, step: Step, x: Tree, y: Tree)
    requires SameValues(a, b) && (step.Field? ==> GoodKey(step.key))
    requires Down(a, step) == Some(x) && Down(b, step) == Some(y)
    ensures SameValues(x, y)
  {
    forall path: Path | GoodPath(path)
      ensures ValueAt(x, path) == ValueAt(y, path)
    {
      var longer := [step] + path;
      assert longer[1..] == path;
      assert ValueAt(a, longer) == ValueAt(b, longer);
    }
  }

  /** A step that one tree can take the other can take too. */
  lemma StepsAlike(a: Tree, b: Tree, step: Step)
    requires SameValues(a, b) && GoodKeys(a) && (step.Field? ==> GoodKey(step.key))
    requires Down(a, step).Some?
    ensures Down(b, step).Some?
  {
    var rest := SomePath(Down(a, step).value);
    var path := [step] + rest;
    assert path[1..] == rest;
    assert ValueAt(a, path) == ValueAt(b, path);
  }

  lemma {:induction false} ValuesDecideTheTree(a: Tree, b: Tree)
    requires GoodKeys(a) && GoodKeys(b) && SameValues(a, b)
    ensures SameTree(a, b)
    decreases a
  {
    assert ValueAt(a, []) == ValueAt(b, []);
    match a
    case Leaf(_) =>
    case Dict(entries) =>
      if entries != [] {
        StepsAlike(a, b, Field(entries[0].key));
        forall i | 0 <= i < |entries|
          ensures HasKey(b, entries[i].key) && SameTree(entries[i].value, At(b, entries[i].key))
        {
          var step := Field(entries[i].key);
          PositionIsUnique(entries, i);
          StepsAlike(a, b, step);
          SameBelow(a, b, step, entries[i].value, At(b, entries[i].key));
          ValuesDecideTheTree(entries[i].value, At(b, entries[i].key));
        }
        forall j | 0 <= j < |b.entries|
          ensures HasKey(a, b.entries[j].key)
        {
          StepsAlike(b, a, Field(b.entries[j].key));
        }
      }
    case Items(list) =>
      if Traversed(list) {
        ListsAlike(a, b);
        forall i | 0 <= i < |list|
          ensures SameTree(list[i], b.list[i])
        {
          SameBelow(a, b, Index(i), list[i], b.list[i]);
          ValuesDecideTheTree(list[i], b.list[i]);
        }
      } else {
        assert ScalarsOf(list) == ScalarsOf(b.list);
        forall i | 0 <= i < |list|
          ensures SameTree(list[i], b.list[i])
        {
          assert ScalarsOf(list)[i] == ScalarsOf(b.list)[i];
          assert !IsTable(list[i]) && !IsTable(b.list[i]);
        }
      }
  }

  lemma ListsAlike(a: Tree, b: Tree)
    requires GoodKeys(a) && GoodKeys(b) && SameValues(a, b) && a.Items? && Traversed(a.list)
    ensures b.Items? && Traversed(b.list) && |b.list| == |a.list|
  {
    StepsAlike(a, b, Index(|a.list| - 1));
    StepsAlike(b, a, Index(|b.list| - 1));
  }

  lemma SameItems(a: Tree, b: Tree)
    requires SameTree(a, b) && a.Items?
    ensures b.Items? && |a.list| == |b.list| && (Traversed(a.list) <==> Traversed(b.list))
    ensures forall i :: 0 <= i < |a.list| ==> SameTree(a.list[i], b.list[i])
    ensures !Traversed(a.list) ==> ScalarsOf(a.list) == ScalarsOf(b.list)
  {
    assert forall i :: 0 <= i < |a.list| ==> SameTree(a.list[i], b.list[i]);
    if !Traversed(a.list) {
      assert ScalarsOf(a.list) == ScalarsOf(b.list);
    }
  }

  lemma {:induction false} SameTreesHaveSameValues(a: Tree, b: Tree, path: Path)
    requires GoodKeys(a) && GoodKeys(b) && SameTree(a, b)
    ensures ValueAt(a, path) == ValueAt(b, path)
    decreases |path|
  {
    if a.Items? {
      SameItems(a, b);
      if path != [] && Traversed(a.list) && path[0].Index? && path[0].i < |a.list| {
        SameTreesHaveSameValues(a.list[path[0].i], b.list[path[0].i], path[1..]);
      }
    } else if path != [] && a.Dict? && path[0].Field? {
      var key := path[0].key;
      assert HasKey(b, key) ==> HasKey(a, b.entries[Position(b.entries, key)].key);
      if HasKey(a, key) {
        SameTreesHaveSameValues(a.entries[Position(a.entries, key)].value, At(b, key), path[1..]);
      }
    }
  }

  /** A path of a dictionary is told by its route alone. */
  lemma RootRoutesAreUnique(a: Path, b: Path)
    requires a != [] && b != [] && a[0].Field? && b[0].Field? && GoodPath(a) && GoodPath(b)
    requires Route("", a) == Route("", b)
    ensures a == b
  {
    StartIsInjective("", a[0], Tail(a[1..]), b[0], Tail(b[1..]));
    TailIsInjective(a[1..], b[1..]);
    assert a == [a[0]] + a[1..] && b == [b[0]] + b[1..];
  }

  /** The value of a route of a dictionary is the value along its path, if it has any. */
  lemma RouteValue(t: Tree, path: Path)
    requires t.Dict? && GoodKeys(t) && GoodPath(path) && path != [] && path[0].Field?
    ensures Route("", path) in Flatten(t, "") <==> ValueAt(t, path).Some?
    ensures Route("", path) in Flatten(t, "") ==> ValueAt(t, path) == Some(Flatten(t, "")[Route("", path)])
  {
    if ValueAt(t, path).Some? {
      EveryPathIsARoute(t, "", path);
    }
    if Route("", path) in Flatten(t, "") {
      var other := EveryEntryRouteIsAPath(t, |t.entries|, "", Route("", path));
      RootRoutesAreUnique(path, other);
    }
  }

  /** Flattening loses nothing: two configurations with the same flattened map are equal. */
  lemma FlattenIsInjective(a: Tree, b: Tree)
    requires a.Dict? && b.Dict? && GoodKeys(a) && GoodKeys(b)
    ensures Flatten(a, "") == Flatten(b, "") <==> SameTree(a, b)
  {
    if Flatten(a, "") == Flatten(b, "") {
      forall path: Path | GoodPath(path)
        ensures ValueAt(a, path) == ValueAt(b, path)
      {
        if path == [] {
          SameEmptiness(a, b);
        } else if path[0].Field? {
          RouteValue(a, path);
          RouteValue(b, path);
        }
      }
      ValuesDecideTheTree(a, b);
    }
    if SameTree(a, b) {
      SameRoutes(a, b);
      SameTreeIsSymmetric(a, b);
      SameRoutes(b, a);
    }
  }

  lemma SameTreeIsSymmetric(a: Tree, b: Tree)
    requires GoodKeys(a) && GoodKeys(b) && SameTree(a, b)
    ensures SameTree(b, a)
  {
    forall path: Path | GoodPath(path)
      ensures ValueAt(b, path) == ValueAt(a, path)
    {
      SameTreesHaveSameValues(a, b, path);
    }
    ValuesDecideTheTree(b, a);
  }

  lemma SameRoutes(a: Tree, b: Tree)
    requires a.Dict? && b.Dict? && GoodKeys(a) && GoodKeys(b) && SameTree(a, b)
    ensures forall r: string :: r in Flatten(a, "") ==> r in Flatten(b, "") && Flatten(b, "")[r] == Flatten(a, "")[r]
  {
    forall r: string | r in Flatten(a, "")
      ensures r in Flatten(b, "") && Flatten(b, "")[r] == Flatten(a, "")[r]
    {
      var path := EveryEntryRouteIsAPath(a, |a.entries|, "", r);
      SameTreesHaveSameValues(a, b, path);
      RouteValue(b, path);
    }
  }

  lemma SameEmptiness(a: Tree, b: Tree)
    requires a.Dict? && b.Dict? && GoodKeys(a) && GoodKeys(b) && Flatten(a, "") == Flatten(b, "")
    ensures a.entries == [] <==> b.entries == []
  {
    if a.entries != [] {
      var path := SomePath(a);
      EveryPathIsARoute(a, "", path);
    }
    if b.entries != [] {
      var path := SomePath(b);
      EveryPathIsARoute(b, "", path);
    }
  }

  // -------------------------------------------------------------------------
  // The differences of two configurations
  // -------------------------------------------------------------------------

  /** What Hermes writes by itself in the configuration it runs with. */
  const SECTION := "onboarding"
  const SEEN := "seen"
  const STATE := SECTION + ("." + SEEN)

  predicate Ignored(r: string) {
    r == STATE || STATE + "." <= r
  }

  datatype Report = Report(missing: set<string>, extra: set<string>, different: set<string>)
  {
    predicate IsEmpty() {
      missing == {} && extra == {} && different == {}
    }
  }

  /** `diferencias_de_config`: the routes that differ. */
  function Differences(live: Tree, expected: Tree): Report {
    var b := Flatten(expected, "");
    var all := Flatten(live, "");
    var a := map r | r in all && (r in b || !Ignored(r)) :: all[r];
    Report(b.Keys - a.Keys, a.Keys - b.Keys, set r | r in a && r in b && a[r] != b[r])
  }

  /** The paths of the state that Hermes keeps: the dictionary and what is under it. */
  predicate RuntimeState(path: Path) {
    |path| >= 2 && path[0] == Field(SECTION) && path[1] == Field(SEEN) && (|path| > 2 ==> path[2].Field?)
  }

  predicate FromADictionary(path: Path) {
    path != [] && path[0].Field? && GoodPath(path)
  }

  lemma RouteOfState(rest: Path)
    ensures Route("", [Field(SECTION), Field(SEEN)] + rest) == STATE + Tail(rest)
  {
    var path := [Field(SECTION), Field(SEEN)] + rest;
    assert path[1..][1..] == rest;
    assert Tail(path[1..]) == "." + SEEN + Tail(rest);
    Associate(SECTION, "." + SEEN, Tail(rest));
  }

  lemma RuntimeStateIsIgnored(path: Path)
    requires FromADictionary(path) && RuntimeState(path)
    ensures Ignored(Route("", path))
  {
    var rest := path[2..];
    assert path == [Field(SECTION), Field(SEEN)] + rest;
    RouteOfState(rest);
    if rest != [] {
      Associate(".", rest[0].key, Tail(rest[1..]));
      Associate(STATE, ".", rest[0].key + Tail(rest[1..]));
    }
  }

  lemma TheStateItself(path: Path)
    requires FromADictionary(path) && Route("", path) == STATE
    ensures path == [Field(SECTION), Field(SEEN)]
  {
    var state := [Field(SECTION), Field(SEEN)];
    RouteOfState([]);
    assert state + [] == state;
    RootRoutesAreUnique(path, state);
  }

  lemma IgnoredIsRuntimeState(path: Path)
    requires FromADictionary(path)
    ensures Ignored(Route("", path)) <==> RuntimeState(path)
  {
    if RuntimeState(path) {
      RuntimeStateIsIgnored(path);
    }
    var r := Route("", path);
    if r == STATE {
      TheStateItself(path);
    } else if STATE + "." <= r {
      StateIsParsed(path, r[|STATE + "."|..]);
    }
  }

  lemma StateIsParsed(path: Path, x: string)
    requires FromADictionary(path) && Route("", path) == STATE + "." + x
    ensures RuntimeState(path)
  {
    var below := path[1..];
    Associate(SECTION, "." + SEEN, "." + x);
    Associate(STATE, ".", x);
    PartsAreUnique(path[0].key, Tail(below), SECTION, "." + SEEN + ("." + x), ".[");
    SeenIsParsed(below, x);
  }

  lemma SeenIsParsed(below: Path, x: string)
    requires GoodPath(below) && Tail(below) == "." + SEEN + ("." + x)
    ensures |below| >= 2 && below[0] == Field(SEEN) && below[1].Field?
  {
    assert below != [] && Tail(below)[0] == '.';
    var rest := below[1..];
    FieldIsInjective(below[0].key, Tail(rest), SEEN, "." + x);
    assert rest != [] && Tail(rest)[0] == '.';
  }

  /** The expected value is there, and what is there besides is state of the runtime. */
  ghost predicate AgreesAt(live: Tree, expected: Tree, path: Path) {
    && (ValueAt(expected, path).Some? ==> ValueAt(live, path) == ValueAt(expected, path))
    && (ValueAt(live, path).Some? && ValueAt(expected, path).None? ==> RuntimeState(path))
  }

  ghost predicate Agrees(live: Tree, expected: Tree) {
    forall path: Path :: FromADictionary(path) ==> AgreesAt(live, expected, path)
  }

  /** No difference is reported exactly when the live configuration has every value of
      the expected one, and otherwise only state of the runtime. */
  lemma NoDifferencesMeansAgreement(live: Tree, expected: Tree)
    requires live.Dict? && expected.Dict? && GoodKeys(live) && GoodKeys(expected)
    ensures Differences(live, expected).IsEmpty() <==> Agrees(live, expected)
  {
    if Differences(live, expected).IsEmpty() {
      forall path: Path | FromADictionary(path)
        ensures AgreesAt(live, expected, path)
      {
        NothingReportedAt(live, expected, path);
      }
    }
    if Agrees(live, expected) {
      forall r: string
        ensures r !in Differences(live, expected).missing && r !in Differences(live, expected).extra
                && r !in Differences(live, expected).different
      {
        AgreementAtRoute(live, expected, r);
      }
    }
  }

  lemma NothingReportedAt(live: Tree, expected: Tree, path: Path)
    requires live.Dict? && expected.Dict? && GoodKeys(live) && GoodKeys(expected) && FromADictionary(path)
    requires Differences(live, expected).IsEmpty()
    ensures AgreesAt(live, expected, path)
  {
    var r, report := Route("", path), Differences(live, expected);
    RouteValue(live, path);
    RouteValue(expected, path);
    IgnoredIsRuntimeState(path);
    assert r !in report.missing && r !in report.extra && r !in report.different;
  }

  lemma AgreementAtRoute(live: Tree, expected: Tree, r: string)
    requires live.Dict? && expected.Dict? && GoodKeys(live) && GoodKeys(expected)
    requires Agrees(live, expected)
    ensures var report := Differences(live, expected);
            r !in report.missing && r !in report.extra && r !in report.different
  {
    if r in Flatten(expected, "") {
      var path := EveryEntryRouteIsAPath(expected, |expected.entries|, "", r);
      assert AgreesAt(live, expected, path);
      RouteValue(live, path);
    } else if r in Flatten(live, "") {
      var path := EveryEntryRouteIsAPath(live, |live.entries|, "", r);
      assert AgreesAt(live, expected, path);
      RouteValue(expected, path);
      IgnoredIsRuntimeState(path);
    }
  }

  /** With no state of the runtime, no difference is reported exactly between equal configurations. */
  lemma WithoutStateNoDifferencesMeansEqual(live: Tree, expected: Tree)
    requires live.Dict? && expected.Dict? && GoodKeys(live) && GoodKeys(expected)
    requires forall path: Path :: FromADictionary(path) && RuntimeState(path) ==> ValueAt(live, path).None?
    ensures Differences(live, expected).IsEmpty() <==> SameTree(live, expected)
  {
    NoDifferencesMeansAgreement(live, expected);
    if Agrees(live, expected) {
      forall path: Path | FromADictionary(path)
        ensures ValueAt(live, path) == ValueAt(expected, path)
      {
        assert AgreesAt(live, expected, path);
      }
      forall r: string
        ensures r in Flatten(live, "") <==> r in Flatten(expected, "")
        ensures r in Flatten(live, "") ==> Flatten(live, "")[r] == Flatten(expected, "")[r]
      {
        SameAtRoute(live, expected, r);
      }
      FlattenIsInjective(live, expected);
    }
    if SameTree(live, expected) {
      forall path: Path | FromADictionary(path)
        ensures AgreesAt(live, expected, path)
      {
        SameTreesHaveSameValues(live, expected, path);
      }
    }
  }

  lemma SameAtRoute(a: Tree, b: Tree, r: string)
    requires a.Dict? && b.Dict? && GoodKeys(a) && GoodKeys(b)
    requires forall path: Path :: FromADictionary(path) ==> ValueAt(a, path) == ValueAt(b, path)
    ensures r in Flatten(a, "") <==> r in Flatten(b, "")
    ensures r in Flatten(a, "") ==> Flatten(a, "")[r] == Flatten(b, "")[r]
  {
    if r in Flatten(a, "") {
      var path := EveryEntryRouteIsAPath(a, |a.entries|, "", r);
      RouteValue(b, path);
    }
    if r in Flatten(b, "") {
      var path := EveryEntryRouteIsAPath(b, |b.entries|, "", r);
      RouteValue(a, path);
    }
  }

  /** An expected section that is empty is reported as missing once Hermes writes its
      state in it: the state is left out, but the section is not empty any more. */
  lemma StateInAnEmptySectionIsReported(live: Tree, expected: Tree)
    requires live.Dict? && expected.Dict? && GoodKeys(live) && GoodKeys(expected)
    requires ValueAt(expected, [Field(SECTION)]) == Some(EmptyDict)
    requires ValueAt(live, [Field(SECTION)]) != Some(EmptyDict)
    ensures SECTION in Differences(live, expected).missing + Differences(live, expected).different
  {
    var path := [Field(SECTION)];
    RouteValue(expected, path);
    RouteValue(live, path);
    assert Route("", path) == SECTION;
  }

  /** State kept as a list of tables is reported too: its routes go on with a bracket. */
  lemma StateInAListIsReported(live: Tree, expected: Tree, path: Path)
    requires live.Dict? && expected.Dict? && GoodKeys(live) && GoodKeys(expected) && FromADictionary(path)
    requires |path| > 2 && path[0] == Field(SECTION) && path[1] == Field(SEEN) && path[2].Index?
    requires ValueAt(live, path).Some? && ValueAt(expected, path).None?
    ensures Route("", path) in Differences(live, expected).extra
  {
    RouteValue(live, path);
    RouteValue(expected, path);
    IgnoredIsRuntimeState(path);
  }

  lemma OneEntry(t: Tree, prefix: string)
    requires t.Dict? && |t.entries| == 1
    ensures Flatten(t, prefix) == Flatten(t.entries[0].value, Child(prefix, t.entries[0].key))
  {
    var one := Flatten(t.entries[0].value, Child(prefix, t.entries[0].key));
    assert FlattenEntries(t, 0, prefix) == map[];
    assert FlattenEntries(t, 1, prefix) == map[] + one == one;
  }

  /** A key with a "." makes two different configurations flatten to the same map. */
  lemma ADotInAKeyIsAmbiguous(value: Scalar)
    ensures var a := Dict([Entry("a.b", Leaf(value))]);
            var b := Dict([Entry("a", Dict([Entry("b", Leaf(value))]))]);
            Flatten(a, "") == Flatten(b, "") && !SameTree(a, b)
  {
    var inner := Dict([Entry("b", Leaf(value))]);
    var a, b := Dict([Entry("a.b", Leaf(value))]), Dict([Entry("a", inner)]);
    assert Child("a", "b") == "a.b";
    OneEntry(inner, "a");
    OneEntry(b, "");
    OneEntry(a, "");
    assert b.entries[0].key == "a";
    assert |"a"| != |"a.b"|;
  }

  /** So does an empty key: what is below it has the routes of the root. */
  lemma AnEmptyKeyIsAmbiguous(key: string, value: Scalar)
    requires key != ""
    ensures var inner := Dict([Entry(key, Leaf(value))]);
            var a := Dict([Entry("", inner)]);
            Flatten(a, "") == Flatten(inner, "") && !SameTree(a, inner)
  {
    var inner := Dict([Entry(key, Leaf(value))]);
    var a := Dict([Entry("", inner)]);
    OneEntry(inner, "");
    OneEntry(a, "");
    assert a.entries[0].key == "" && inner.entries[0].key == key;
  }
}
