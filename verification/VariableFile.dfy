/** Merging variables into a file without losing its other lines
    (`leer_variables_de_texto`, `fusionar_variables`). */
module VariableFile {
  import opened Wrappers
  import opened Sets
  import opened Text

  // -------------------------------------------------------------------------
  // Lines
  // -------------------------------------------------------------------------

  /** The characters where `str.splitlines` breaks a text. */
  predicate IsBreak(c: char) {
    '\n' <= c <= '\r' || '\U{1c}' <= c <= '\U{1e}' || c == '\U{85}' || c == '\U{2028}' || c == '\U{2029}'
  }

  predicate OneLine(s: string) {
    forall i :: 0 <= i < |s| ==> !IsBreak(s[i])
  }

  function LineEnd(s: string): (n: nat)
    ensures n <= |s|
  {
    if s == "" || IsBreak(s[0]) then 0 else 1 + LineEnd(s[1..])
  }

  /** After the break, which may be a carriage return with its line feed. */
  function AfterBreak(s: string, n: nat): (m: nat)
    requires n < |s|
    ensures n < m <= |s|
  {
    if s[n] == '\r' && n + 1 < |s| && s[n + 1] == '\n' then n + 2 else n + 1
  }

  function SplitLines(s: string): seq<string>
    decreases |s|
  {
    if s == "" then []
    else
      var n := LineEnd(s);
      if n == |s| then [s] else [s[..n]] + SplitLines(s[AfterBreak(s, n)..])
  }

  function PrintLines(lines: seq<string>): string {
    if lines == [] then "" else lines[0] + ['\n'] + PrintLines(lines[1..])
  }

  lemma {:induction false} LineEndOf(line: string, rest: string)
    requires OneLine(line)
    ensures LineEnd(line + ['\n'] + rest) == |line|
  {
    var s := line + ['\n'] + rest;
    if line == "" {
      assert s[0] == '\n';
    } else {
      assert s[0] == line[0] && s[1..] == line[1..] + ['\n'] + rest;
      LineEndOf(line[1..], rest);
    }
  }

  /** The breaks: a carriage return with its line feed, or one of ten characters. */
  predicate IsALineBreak(b: string, rest: string) {
    || b == "\r\n"
    || (b == "\r" && (rest == "" || rest[0] != '\n'))
    || b in {"\n", "\U{b}", "\U{c}", "\U{1c}", "\U{1d}", "\U{1e}", "\U{85}", "\U{2028}", "\U{2029}"}
  }

  /** Every break ends its line, and what is after it is split on its own. */
  lemma ABreakEndsItsLine(line: string, b: string, rest: string)
    requires OneLine(line) && IsALineBreak(b, rest)
    ensures SplitLines(line + b + rest) == [line] + SplitLines(rest)
  {
    var s := line + b + rest;
    LineEndAt(line, b, rest);
    var n := |line|;
    assert s[n] == b[0] && s[..n] == line && s[n + |b|..] == rest;
    assert |s| > n + |b| ==> s[n + |b|] == rest[0];
    assert |b| == 2 ==> s[n + 1] == b[1];
  }

  lemma {:induction false} LineEndAt(line: string, b: string, rest: string)
    requires OneLine(line) && IsALineBreak(b, rest)
    ensures LineEnd(line + b + rest) == |line|
  {
    var s := line + b + rest;
    if line == "" {
      assert s[0] == b[0];
    } else {
      assert s[0] == line[0] && s[1..] == line[1..] + b + rest;
      LineEndAt(line[1..], b, rest);
    }
  }

  /** Splitting undoes printing lines. */
  lemma {:induction false} SplitOfPrinted(lines: seq<string>)
    requires forall i :: 0 <= i < |lines| ==> OneLine(lines[i])
    ensures SplitLines(PrintLines(lines)) == lines
  {
    if lines != [] {
      var line, rest := lines[0], PrintLines(lines[1..]);
      var s := line + ['\n'] + rest;
      LineEndOf(line, rest);
      assert s[|line|] == '\n' && s[..|line|] == line && s[|line| + 1..] == rest;
      SplitOfPrinted(lines[1..]);
    }
  }

  lemma {:induction false} LinesAreOneLine(s: string)
    ensures forall i :: 0 <= i < |SplitLines(s)| ==> OneLine(SplitLines(s)[i])
    decreases |s|
  {
    if s != "" {
      var n := LineEnd(s);
      UpToTheBreak(s);
      if n < |s| {
        LinesAreOneLine(s[AfterBreak(s, n)..]);
      }
    }
  }

  lemma {:induction false} UpToTheBreak(s: string)
    ensures OneLine(s[..LineEnd(s)])
  {
    if s != "" && !IsBreak(s[0]) {
      UpToTheBreak(s[1..]);
      assert s[..LineEnd(s)] == [s[0]] + s[1..][..LineEnd(s[1..])];
    }
  }

  /** Joining with line feeds and ending with one is printing the lines. */
  lemma {:induction false} JoinIsPrint(lines: seq<string>)
    requires lines != []
    ensures Join(lines, '\n') + ['\n'] == PrintLines(lines)
  {
    if |lines| > 1 {
      JoinIsPrint(lines[1..]);
      Associate(lines[0] + ['\n'], Join(lines[1..], '\n'), ['\n']);
    }
  }

  // -------------------------------------------------------------------------
  // Assignments
  // -------------------------------------------------------------------------

  function FirstEquals(s: string): (n: nat)
    requires '=' in s
    ensures n < |s| && s[n] == '=' && '=' !in s[..n]
  {
    if s[0] == '=' then 0 else 1 + FirstEquals(s[1..])
  }

  /** The key and the value that a line assigns, if it is not blank, a comment or something else. */
  function Assignment(line: string): Option<(string, string)> {
    var s := Strip(line);
    if s == "" || s[0] == '#' || '=' !in s then None
    else
      var n := FirstEquals(s);
      Some((Strip(s[..n]), Strip(s[n + 1..])))
  }

  predicate Assigns(line: string, keys: set<string>) {
    Assignment(line).Some? && Assignment(line).value.0 in keys
  }

  /** The mapping that the lines give; a later line stays over an earlier one. */
  function ReadLines(lines: seq<string>): map<string, string> {
    if lines == [] then map[]
    else
      var before := ReadLines(lines[..|lines| - 1]);
      match Assignment(lines[|lines| - 1])
      case None => before
      case Some((key, value)) => before[key := value]
  }

  function ReadText(text: string): map<string, string> {
    ReadLines(SplitLines(text))
  }

  /** `leer_variables_de_texto` */
  method ReadVariables(text: string) returns (values: map<string, string>)
    ensures values == ReadText(text)
  {
    values := map[];
    var lines := SplitLines(text);
    assert lines[..0] == [];
    for n := 0 to |lines|
      invariant values == ReadLines(lines[..n])
    {
      ghost var before := lines[..n];
      assert lines[..n + 1] == before + [lines[n]] && (before + [lines[n]])[..n] == before;
      var assignment := Assignment(lines[n]);
      if assignment.Some? {
        values := values[assignment.value.0 := assignment.value.1];
      }
    }
    assert lines[..|lines|] == lines;
  }

  ghost predicate AllSpaces(s: string) {
    forall i :: 0 <= i < |s| ==> Space(s[i])
  }

  /** The first character of the line, spaces aside, begins a comment. */
  ghost predicate IsComment(line: string) {
    exists i :: 0 <= i < |line| && IsMarkOfComment(line, i)
  }

  ghost predicate IsMarkOfComment(line: string, i: nat)
    requires i < |line|
  {
    line[i] == '#' && AllSpaces(line[..i])
  }

  /** Spaces around a text do not matter. */
  lemma {:induction false} StripIgnoresSpaces(a: string, s: string, b: string)
    requires AllSpaces(a) && AllSpaces(b)
    ensures Strip(a + s + b) == Strip(s)
    decreases |a| + |b|
  {
    var t := a + s + b;
    if a != "" {
      assert t[0] == a[0] && t[1..] == a[1..] + s + b;
      StripIgnoresSpaces(a[1..], s, b);
    } else if b != "" {
      var c := b[|b| - 1];
      var u := s + b[..|b| - 1];
      assert t == u + [c] && a + s + b[..|b| - 1] == u;
      StripIgnoresSpaces(a, s, b[..|b| - 1]);
      StripOfOneMoreSpace(u, c);
    } else {
      assert t == s;
    }
  }

  lemma {:induction false} StripOfOneMoreSpace(s: string, c: char)
    requires Space(c)
    ensures Strip(s + [c]) == Strip(s)
  {
    if s != "" && Space(s[0]) {
      assert (s + [c])[0] == s[0] && (s + [c])[1..] == s[1..] + [c];
      StripOfOneMoreSpace(s[1..], c);
    } else if s == "" {
      assert s + [c] == [c] && [c][1..] == "";
    } else {
      assert (s + [c])[0] == s[0] && (s + [c])[..|s|] == s;
    }
  }

  /** A line is spaces, what is left of it trimmed, and spaces. */
  lemma AroundTheStripped(line: string) returns (a: string, b: string)
    ensures AllSpaces(a) && AllSpaces(b) && line == a + Strip(line) + b
  {
    a := SpacesBefore(line);
    b := SpacesAfter(StripLeft(line));
    Associate(a, Strip(line), b);
  }

  lemma {:induction false} SpacesBefore(s: string) returns (a: string)
    ensures AllSpaces(a) && s == a + StripLeft(s)
  {
    a := "";
    if s != "" && Space(s[0]) {
      var rest := SpacesBefore(s[1..]);
      a := [s[0]] + rest;
    }
  }

  lemma {:induction false} SpacesAfter(s: string) returns (b: string)
    ensures AllSpaces(b) && s == StripRight(s) + b
  {
    b := "";
    if s != "" && Space(s[|s| - 1]) {
      var rest := SpacesAfter(s[..|s| - 1]);
      b := rest + [s[|s| - 1]];
    }
  }

  lemma FirstEqualsIsUnique(s: string, n: nat)
    requires n < |s| && s[n] == '=' && '=' !in s[..n]
    ensures FirstEquals(s) == n
  {
    var m := FirstEquals(s);
    assert forall k :: 0 <= k < n ==> s[k] == s[..n][k] && s[..n][k] != '=';
    assert forall k :: 0 <= k < m ==> s[k] == s[..m][k] && s[..m][k] != '=';
  }

  lemma CommentOfStripped(line: string, a: string, s: string, b: string)
    requires line == a + s + b && AllSpaces(a) && AllSpaces(b) && s == Strip(line)
    ensures IsComment(line) <==> s != "" && s[0] == '#'
  {
    StripIsTrimmed(line);
    if s != "" && s[0] == '#' {
      assert line[..|a|] == a && IsMarkOfComment(line, |a|);
    }
    if IsComment(line) {
      var i :| 0 <= i < |line| && IsMarkOfComment(line, i);
      assert forall k :: 0 <= k < i ==> line[..i][k] == line[k];
      assert forall k :: 0 <= k < |a| ==> line[k] == a[k];
      assert forall k :: |a| + |s| <= k < |line| ==> line[k] == b[k - |a| - |s|];
      assert s == "" || line[|a|] == s[0];
    }
  }

  lemma NoEqualsAround(line: string, a: string, s: string, b: string)
    requires line == a + s + b && AllSpaces(a) && AllSpaces(b)
    ensures '=' !in a && '=' !in b && ('=' in line <==> '=' in s)
  {
    assert !Space('=');
    assert forall c :: c in line <==> c in a || c in s || c in b;
  }

  lemma DividedAtTheFirst(line: string, a: string, s: string, b: string, n: nat)
    requires line == a + s + b && AllSpaces(a) && AllSpaces(b)
    requires n < |line| && line[n] == '=' && '=' !in line[..n]
    ensures '=' in s
    ensures Strip(s[..FirstEquals(s)]) == Strip(line[..n]) && Strip(s[FirstEquals(s) + 1..]) == Strip(line[n + 1..])
  {
    var m := TheSamePlace(line, a, s, b, n);
    SpacesBeforeIt(a, s[..m]);
    SpacesBehindIt(s[m + 1..], b);
  }

  lemma TheSamePlace(line: string, a: string, s: string, b: string, n: nat) returns (m: nat)
    requires line == a + s + b && AllSpaces(a) && AllSpaces(b)
    requires n < |line| && line[n] == '=' && '=' !in line[..n]
    ensures '=' in s && m == FirstEquals(s)
    ensures line[..n] == a + s[..m] && line[n + 1..] == s[m + 1..] + b
  {
    NoEqualsAround(line, a, s, b);
    m := FirstEquals(s);
    ThereAtTheFirst(line, a, s, b, m);
    FirstEqualsIsUnique(line, |a| + m);
    FirstEqualsIsUnique(line, n);
  }

  lemma SpacesBeforeIt(a: string, s: string)
    requires AllSpaces(a)
    ensures Strip(a + s) == Strip(s)
  {
    StripIgnoresSpaces(a, s, "");
    assert a + s + "" == a + s;
  }

  lemma SpacesBehindIt(s: string, b: string)
    requires AllSpaces(b)
    ensures Strip(s + b) == Strip(s)
  {
    StripIgnoresSpaces("", s, b);
    assert "" + s + b == s + b;
  }

  lemma ThereAtTheFirst(line: string, a: string, s: string, b: string, m: nat)
    requires line == a + s + b && '=' !in a && m < |s| && s[m] == '=' && '=' !in s[..m]
    ensures line[|a| + m] == '=' && '=' !in line[..|a| + m]
    ensures line[..|a| + m] == a + s[..m] && line[|a| + m + 1..] == s[m + 1..] + b
  {
  }

  /** A line assigns when it has an "=" and is no comment, and then what is left of its first
      "=" names what is right of it. */
  lemma AssignmentMeans(line: string)
    ensures Assignment(line).Some? <==> '=' in line && !IsComment(line)
    ensures forall n :: 0 <= n < |line| && line[n] == '=' && '=' !in line[..n] && Assignment(line).Some?
                        ==> Assignment(line).value == (Strip(line[..n]), Strip(line[n + 1..]))
  {
    var a, b := AroundTheStripped(line);
    CommentOfStripped(line, a, Strip(line), b);
    NoEqualsAround(line, a, Strip(line), b);
    forall n | 0 <= n < |line| && line[n] == '=' && '=' !in line[..n] && Assignment(line).Some?
      ensures Assignment(line).value == (Strip(line[..n]), Strip(line[n + 1..]))
    {
      DividedAtTheFirst(line, a, Strip(line), b, n);
    }
  }

  /** The line that assigns the key, with none after it that does. */
  ghost predicate IsLast(lines: seq<string>, key: string, i: nat) {
    && i < |lines| && AssignsKey(lines[i], key)
    && forall j :: i < j < |lines| ==> !AssignsKey(lines[j], key)
  }

  predicate AssignsKey(line: string, key: string) {
    Assignment(line).Some? && Assignment(line).value.0 == key
  }

  lemma OneMoreRead(before: seq<string>, line: string, key: string)
    ensures AssignsKey(line, key) ==> Reads(before + [line], key, Assignment(line).value.1)
    ensures !AssignsKey(line, key) ==> (key in ReadLines(before + [line]) <==> key in ReadLines(before))
    ensures !AssignsKey(line, key) && key in ReadLines(before)
            ==> ReadLines(before + [line])[key] == ReadLines(before)[key]
  {
    assert (before + [line])[..|before|] == before;
  }

  ghost predicate Reads(lines: seq<string>, key: string, value: string) {
    key in ReadLines(lines) && ReadLines(lines)[key] == value
  }

  /** What is read for a key is what the last line that assigns it says. */
  ghost predicate LastSays(lines: seq<string>, key: string, i: nat) {
    IsLast(lines, key, i) && Reads(lines, key, Assignment(lines[i]).value.1)
  }

  lemma StillTheLast(before: seq<string>, line: string, key: string, i: nat)
    requires LastSays(before, key, i) && !AssignsKey(line, key)
    ensures LastSays(before + [line], key, i)
  {
    OneMoreRead(before, line, key);
    var lines := before + [line];
    assert lines[i] == before[i];
    forall j | i < j < |lines|
      ensures !AssignsKey(lines[j], key)
    {
      assert lines[j] == if j < |before| then before[j] else line;
    }
  }

  lemma StillNone(before: seq<string>, line: string, key: string)
    requires forall j :: 0 <= j < |before| ==> !AssignsKey(before[j], key)
    requires !AssignsKey(line, key)
    ensures forall j :: 0 <= j < |before + [line]| ==> !AssignsKey((before + [line])[j], key)
  {
  }

  /** The last line that assigns a key says its value, and no other key has one. */
  lemma {:induction false} TheLastLineStands(lines: seq<string>, key: string) returns (i: nat)
    ensures key in ReadLines(lines) ==> LastSays(lines, key, i)
    ensures key !in ReadLines(lines) ==> forall j :: 0 <= j < |lines| ==> !AssignsKey(lines[j], key)
  {
    i := 0;
    if lines != [] {
      var before, line := lines[..|lines| - 1], lines[|lines| - 1];
      assert lines == before + [line];
      OneMoreRead(before, line, key);
      if AssignsKey(line, key) {
        i := |lines| - 1;
      } else {
        i := TheLastLineStands(before, key);
        if key in ReadLines(before) {
          StillTheLast(before, line, key, i);
        } else {
          StillNone(before, line, key);
        }
      }
    }
  }

  lemma {:induction false} ValuesAreTrimmed(lines: seq<string>)
    ensures forall k :: k in ReadLines(lines) ==> Trimmed(ReadLines(lines)[k])
  {
    if lines != [] {
      var last := lines[|lines| - 1];
      ValuesAreTrimmed(lines[..|lines| - 1]);
      if Assignment(last).Some? {
        var s := Strip(last);
        StripIsTrimmed(s[FirstEquals(s) + 1..]);
      }
    }
  }

  // -------------------------------------------------------------------------
  // A new line
  // -------------------------------------------------------------------------

  /** A key that a line can assign: trimmed, no "=", no comment, no line break. */
  predicate ValidKey(key: string) {
    Trimmed(key) && '=' !in key && OneLine(key) && (key == "" || key[0] != '#')
  }

  predicate Desirable(desired: map<string, string>) {
    forall k :: k in desired ==> ValidKey(k) && OneLine(desired[k])
  }

  function Stripped(desired: map<string, string>): map<string, string> {
    map k | k in desired :: Strip(desired[k])
  }

  function NewLine(key: string, value: string): string {
    key + "=" + value
  }

  lemma {:induction false} StripRightStopsAt(a: string, b: string)
    requires a != "" && !Space(a[|a| - 1])
    ensures StripRight(a + b) == a + StripRight(b)
  {
    if b == "" {
      assert a + b == a;
    } else if Space(b[|b| - 1]) {
      assert (a + b)[..|a + b| - 1] == a + b[..|b| - 1];
      StripRightStopsAt(a, b[..|b| - 1]);
    }
  }

  lemma {:induction false} StripLeftOfStripRight(s: string)
    ensures StripRight(StripLeft(StripRight(s))) == StripRight(StripLeft(s))
  {
    if s != "" && Space(s[0]) {
      StripLeftOfStripRight(s[1..]);
      if StripRight(s) != "" {
        StripRightOfTail(s);
      } else {
        AllSpace(s);
        StripsToNothing(s);
      }
    } else if s != "" {
      StripRightIsAPrefix(s);
      if StripRight(s) == "" {
        AllSpace(s);
      } else {
        assert StripRight(s)[0] == s[0];
      }
    }
  }

  lemma {:induction false} StripRightOfTail(s: string)
    requires s != "" && StripRight(s) != "" && Space(s[0])
    ensures StripRight(s)[1..] == StripRight(s[1..]) && StripRight(s)[0] == s[0]
  {
    if Space(s[|s| - 1]) {
      assert s[..|s| - 1] != "";
      StripRightOfTail(s[..|s| - 1]);
      assert s[..|s| - 1][1..] == s[1..|s| - 1];
      assert s[1..][..|s| - 2] == s[1..|s| - 1];
    } else {
      assert |s| > 1;
    }
  }

  lemma {:induction false} AllSpace(s: string)
    requires StripRight(s) == ""
    ensures forall i :: 0 <= i < |s| ==> Space(s[i])
  {
    if s != "" {
      AllSpace(s[..|s| - 1]);
    }
  }

  lemma {:induction false} StripsToNothing(s: string)
    requires forall i :: 0 <= i < |s| ==> Space(s[i])
    ensures StripLeft(s) == ""
  {
    if s != "" {
      StripsToNothing(s[1..]);
    }
  }

  lemma NewLineStripped(key: string, value: string)
    requires ValidKey(key)
    ensures Strip(NewLine(key, value)) == key + "=" + StripRight(value)
  {
    var line, head := NewLine(key, value), key + "=";
    assert line == head + value;
    assert line[0] == if key == "" then '=' else key[0];
    assert StripLeft(line) == line;
    StripRightStopsAt(head, value);
  }

  /** A new line assigns its key to its value, trimmed. */
  lemma NewLineAssigns(key: string, value: string)
    requires ValidKey(key)
    ensures Assignment(NewLine(key, value)) == Some((key, Strip(value)))
  {
    var s := key + "=" + StripRight(value);
    NewLineStripped(key, value);
    assert s[|key|] == '=';
    assert s[..|key|] == key && s[|key| + 1..] == StripRight(value);
    StripLeftOfStripRight(value);
  }

  /** The other way round: whatever key a line gives back is one that a line can assign. */
  lemma AssignedKeyIsValid(key: string, value: string)
    requires OneLine(key) && Assignment(NewLine(key, value)) == Some((key, Strip(value)))
    ensures ValidKey(key)
  {
    var line := NewLine(key, value);
    if line[0] == '#' {
      assert IsMarkOfComment(line, 0);
    }
    AssignmentMeans(line);
    var n := FirstEquals(line);
    StripIsTrimmed(line[..n]);
    StripIsShorter(line[..n]);
    assert line[|key|] == '=' && n <= |key|;
    assert n == |key| && line[..n] == key;
    assert key != "" ==> line[0] == key[0];
  }

  lemma StripIsShorter(s: string)
    ensures |Strip(s)| <= |s|
  {
    StripLeftIsASuffix(s);
    StripRightIsAPrefix(StripLeft(s));
  }

  // -------------------------------------------------------------------------
  // Merging
  // -------------------------------------------------------------------------

  /** The lines that do not assign any of the keys. */
  function Others(lines: seq<string>, keys: set<string>): seq<string> {
    if lines == [] then []
    else
      Others(lines[..|lines| - 1], keys)
      + if Assigns(lines[|lines| - 1], keys) then [] else [lines[|lines| - 1]]
  }

  /** How many lines assign a key. */
  function Count(lines: seq<string>, key: string): nat {
    if lines == [] then 0
    else Count(lines[..|lines| - 1], key) + if Assigns(lines[|lines| - 1], {key}) then 1 else 0
  }

  /** The keys whose value is not the desired one. */
  function Changing(values: map<string, string>, desired: map<string, string>): set<string> {
    set k | k in desired && (k !in values || values[k] != desired[k])
  }

  function Restricted(desired: map<string, string>, keys: set<string>): map<string, string> {
    map k | k in desired && k in keys :: desired[k]
  }

  /** The line at `i` assigns a desired key that no earlier line assigns. */
  ghost predicate IsFirst(lines: seq<string>, i: nat, key: string) {
    && i < |lines| && AssignsKey(lines[i], key)
    && forall j :: 0 <= j < i ==> !AssignsKey(lines[j], key)
  }

  /** The line has its place in the new text: it assigns no desired key, or is the first that
      assigns its key. */
  ghost predicate Stays(lines: seq<string>, i: nat, keys: set<string>)
    requires i < |lines|
  {
    Assigns(lines[i], keys) ==> IsFirst(lines, i, Assignment(lines[i]).value.0)
  }

  /** What stands where this line was. */
  function Replaced(line: string, desired: map<string, string>): string {
    if Assigns(line, desired.Keys) then
      NewLine(Assignment(line).value.0, desired[Assignment(line).value.0])
    else line
  }

  /** The lines written are those at these positions, each replaced when it assigns. */
  ghost predicate InPlace(out: seq<string>, read: seq<string>, desired: map<string, string>, ps: seq<nat>) {
    && |out| == |ps|
    && (forall a :: 0 <= a < |ps| ==> ps[a] < |read| && Stays(read, ps[a], desired.Keys))
    && (forall a :: 0 <= a < |ps| ==> out[a] == Replaced(read[ps[a]], desired))
    && (forall a, b :: 0 <= a < b < |ps| ==> ps[a] < ps[b])
    && (forall i :: 0 <= i < |read| && Stays(read, i, desired.Keys) ==> i in ps)
  }

  /** The keys placed are those that a line read assigns. */
  ghost predicate PlacedAreRead(placed: set<string>, read: seq<string>, desired: map<string, string>) {
    forall k :: k in desired ==> (k in placed <==> exists i :: 0 <= i < |read| && AssignsKey(read[i], k))
  }

  lemma PlacedByOneMore(placed: set<string>, read: seq<string>, desired: map<string, string>, line: string)
    requires PlacedAreRead(placed, read, desired)
    ensures PlacedAreRead(if Assigns(line, desired.Keys) then placed + {Assignment(line).value.0} else placed,
                          read + [line], desired)
  {
    var longer := read + [line];
    forall k | k in desired
      ensures (exists i :: 0 <= i < |longer| && AssignsKey(longer[i], k))
              <==> k in placed || AssignsKey(line, k)
    {
      if AssignsKey(line, k) {
        assert AssignsKey(longer[|read|], k);
      } else if k in placed {
        var i :| 0 <= i < |read| && AssignsKey(read[i], k);
        assert AssignsKey(longer[i], k);
      }
    }
  }

  lemma StaysWithOneMore(read: seq<string>, line: string, keys: set<string>, i: nat)
    requires i < |read|
    ensures Stays(read + [line], i, keys) <==> Stays(read, i, keys)
  {
    assert (read + [line])[i] == read[i];
    assert forall j :: 0 <= j < i ==> (read + [line])[j] == read[j];
  }

  lemma TheNextStays(placed: set<string>, read: seq<string>, desired: map<string, string>, line: string)
    requires PlacedAreRead(placed, read, desired)
    ensures Stays(read + [line], |read|, desired.Keys)
            <==> !Assigns(line, desired.Keys) || Assignment(line).value.0 !in placed
  {
    var longer := read + [line];
    assert longer[|read|] == line && forall j :: 0 <= j < |read| ==> longer[j] == read[j];
  }

  lemma InPlaceWithout(out: seq<string>, read: seq<string>, desired: map<string, string>, ps: seq<nat>, line: string)
    requires InPlace(out, read, desired, ps) && !Stays(read + [line], |read|, desired.Keys)
    ensures InPlace(out, read + [line], desired, ps)
  {
    forall i | 0 <= i < |read|
      ensures Stays(read + [line], i, desired.Keys) <==> Stays(read, i, desired.Keys)
    {
      StaysWithOneMore(read, line, desired.Keys, i);
    }
  }

  lemma InPlaceWith(out: seq<string>, read: seq<string>, desired: map<string, string>, ps: seq<nat>, line: string)
    requires InPlace(out, read, desired, ps) && Stays(read + [line], |read|, desired.Keys)
    ensures InPlace(out + [Replaced(line, desired)], read + [line], desired, ps + [|read|])
  {
    var next := ps + [|read|];
    forall i | 0 <= i < |read|
      ensures Stays(read + [line], i, desired.Keys) <==> Stays(read, i, desired.Keys)
    {
      StaysWithOneMore(read, line, desired.Keys, i);
    }
    forall i | 0 <= i < |read + [line]| && Stays(read + [line], i, desired.Keys)
      ensures i in next
    {
      if i < |read| {
        assert i in ps;
      } else {
        assert next[|ps|] == i;
      }
    }
  }

  /** These are the keys, each once, in the order of texts. */
  ghost predicate AreInOrder(ks: seq<string>, keys: set<string>) {
    && (forall a, b :: 0 <= a < b < |ks| ==> TextLess(ks[a], ks[b]))
    && forall k :: k in ks <==> k in keys
  }

  function NewLines(ks: seq<string>, desired: map<string, string>): seq<string>
    requires forall i :: 0 <= i < |ks| ==> ks[i] in desired
  {
    seq(|ks|, i requires 0 <= i < |ks| => NewLine(ks[i], desired[ks[i]]))
  }

  /** The new text is the old one with each line in its place and the missing keys after it. */
  ghost predicate IsMerged(all: seq<string>, lines: seq<string>, desired: map<string, string>, ps: seq<nat>, ks: seq<string>) {
    && |all| == |ps| + |ks|
    && InPlace(all[..|ps|], lines, desired, ps)
    && (forall a, b :: 0 <= a < b < |ks| ==> TextLess(ks[a], ks[b]))
    && (forall k :: k in ks <==> k in desired && forall i :: 0 <= i < |lines| ==> !AssignsKey(lines[i], k))
    && forall a :: 0 <= a < |ks| ==> all[|ps| + a] == NewLine(ks[a], desired[ks[a]])
  }

  /** What the loops have written: each placed key once with its desired value, and the
      lines read so far that assign no desired key. */
  ghost predicate Written(out: seq<string>, placed: set<string>, read: seq<string>, desired: map<string, string>) {
    && placed <= desired.Keys
    && Others(out, desired.Keys) == Others(read, desired.Keys)
    && CountedOnce(out, placed, desired)
    && ReadsAs(out, placed, read, desired)
    && forall i :: 0 <= i < |out| ==> OneLine(out[i])
  }

  ghost predicate CountedOnce(out: seq<string>, placed: set<string>, desired: map<string, string>) {
    forall k :: k in desired ==> Count(out, k) == if k in placed then 1 else 0
  }

  ghost predicate ReadsAs(out: seq<string>, placed: set<string>, read: seq<string>, desired: map<string, string>) {
    ReadLines(out) == (ReadLines(read) - desired.Keys) + Stripped(Restricted(desired, placed))
  }

  lemma OneMore(lines: seq<string>, line: string, keys: set<string>)
    ensures Others(lines + [line], keys) == Others(lines, keys) + if Assigns(line, keys) then [] else [line]
    ensures forall k :: Count(lines + [line], k) == Count(lines, k) + if Assigns(line, {k}) then 1 else 0
    ensures ReadLines(lines + [line]) == match Assignment(line)
                                         case None => ReadLines(lines)
                                         case Some((key, value)) => ReadLines(lines)[key := value]
  {
    assert (lines + [line])[..|lines|] == lines;
  }

  lemma UpdateRight(m: map<string, string>, p: map<string, string>, key: string, value: string)
    ensures (m + p)[key := value] == m + p[key := value]
  {
  }

  lemma UpdateLeft(m: map<string, string>, p: map<string, string>, key: string, value: string)
    requires key !in p
    ensures (m + p)[key := value] == m[key := value] + p
  {
  }

  lemma UpdateKept(m: map<string, string>, keys: set<string>, key: string, value: string)
    requires key !in keys
    ensures m[key := value] - keys == (m - keys)[key := value]
  {
  }

  lemma OneMoreStripped(desired: map<string, string>, placed: set<string>, key: string)
    requires key in desired
    ensures Stripped(Restricted(desired, placed + {key})) == Stripped(Restricted(desired, placed))[key := Strip(desired[key])]
  {
  }

  lemma AddedLineReads(out: seq<string>, placed: set<string>, read: seq<string>, desired: map<string, string>, key: string)
    requires ReadsAs(out, placed, read, desired) && key in desired && ValidKey(key)
    ensures ReadsAs(out + [NewLine(key, desired[key])], placed + {key}, read, desired)
  {
    NewLineAssigns(key, desired[key]);
    OneMore(out, NewLine(key, desired[key]), {});
    OneMoreStripped(desired, placed, key);
    UpdateRight(ReadLines(read) - desired.Keys, Stripped(Restricted(desired, placed)), key, Strip(desired[key]));
  }

  lemma AddedLineCounts(out: seq<string>, placed: set<string>, desired: map<string, string>, key: string)
    requires CountedOnce(out, placed, desired) && ValidKey(key) && key in desired && key !in placed
    ensures CountedOnce(out + [NewLine(key, desired[key])], placed + {key}, desired)
  {
    NewLineAssigns(key, desired[key]);
    OneMore(out, NewLine(key, desired[key]), {});
  }

  lemma AddLine(out: seq<string>, placed: set<string>, read: seq<string>, desired: map<string, string>, key: string)
    requires Written(out, placed, read, desired) && Desirable(desired) && key in desired && key !in placed
    ensures Written(out + [NewLine(key, desired[key])], placed + {key}, read, desired)
  {
    var line := NewLine(key, desired[key]);
    NewLineAssigns(key, desired[key]);
    OneMore(out, line, desired.Keys);
    AddedLineCounts(out, placed, desired, key);
    AddedLineReads(out, placed, read, desired, key);
    NewLineIsOneLine(key, desired[key]);
  }

  lemma NewLineIsOneLine(key: string, value: string)
    requires OneLine(key) && OneLine(value)
    ensures OneLine(NewLine(key, value))
  {
    var line := NewLine(key, value);
    forall i | 0 <= i < |line|
      ensures !IsBreak(line[i])
    {
      assert line[i] == if i < |key| then key[i] else if i == |key| then '=' else value[i - |key| - 1];
    }
  }

  lemma SkipLine(out: seq<string>, placed: set<string>, read: seq<string>, desired: map<string, string>, line: string)
    requires Written(out, placed, read, desired) && Assigns(line, desired.Keys)
    ensures Written(out, placed, read + [line], desired)
  {
    OneMore(read, line, desired.Keys);
    assert ReadLines(read + [line]) - desired.Keys == ReadLines(read) - desired.Keys;
  }

  lemma KeptLineReads(out: seq<string>, placed: set<string>, read: seq<string>, desired: map<string, string>, line: string)
    requires ReadsAs(out, placed, read, desired) && !Assigns(line, desired.Keys)
    ensures ReadsAs(out + [line], placed, read + [line], desired)
  {
    OneMore(read, line, {});
    OneMore(out, line, {});
    if Assignment(line).Some? {
      var key, value := Assignment(line).value.0, Assignment(line).value.1;
      UpdateKept(ReadLines(read), desired.Keys, key, value);
      UpdateLeft(ReadLines(read) - desired.Keys, Stripped(Restricted(desired, placed)), key, value);
    }
  }

  lemma KeepLine(out: seq<string>, placed: set<string>, read: seq<string>, desired: map<string, string>, line: string)
    requires Written(out, placed, read, desired) && !Assigns(line, desired.Keys) && OneLine(line)
    ensures Written(out + [line], placed, read + [line], desired)
  {
    OneMore(read, line, desired.Keys);
    OneMore(out, line, desired.Keys);
    KeptLineReads(out, placed, read, desired, line);
  }

  ghost predicate Rewritten(out: seq<string>, placed: set<string>, read: seq<string>, desired: map<string, string>, ps: seq<nat>) {
    Written(out, placed, read, desired) && InPlace(out, read, desired, ps) && PlacedAreRead(placed, read, desired)
  }

  lemma DropsLine(out: seq<string>, placed: set<string>, read: seq<string>, desired: map<string, string>, ps: seq<nat>, line: string)
    requires Rewritten(out, placed, read, desired, ps)
    requires Assigns(line, desired.Keys) && Assignment(line).value.0 in placed
    ensures Rewritten(out, placed, read + [line], desired, ps)
  {
    SkipLine(out, placed, read, desired, line);
    TheNextStays(placed, read, desired, line);
    InPlaceWithout(out, read, desired, ps, line);
    PlacedAlready(placed, read, desired, line);
  }

  lemma PlacedAlready(placed: set<string>, read: seq<string>, desired: map<string, string>, line: string)
    requires PlacedAreRead(placed, read, desired)
    requires Assigns(line, desired.Keys) && Assignment(line).value.0 in placed
    ensures PlacedAreRead(placed, read + [line], desired)
  {
    PlacedByOneMore(placed, read, desired, line);
    assert placed + {Assignment(line).value.0} == placed;
  }

  lemma ReplacesLine(out: seq<string>, placed: set<string>, read: seq<string>, desired: map<string, string>, ps: seq<nat>, line: string, key: string)
    requires Rewritten(out, placed, read, desired, ps) && Desirable(desired)
    requires Assigns(line, desired.Keys) && key == Assignment(line).value.0 && key !in placed
    ensures Rewritten(out + [NewLine(key, desired[key])], placed + {key}, read + [line], desired, ps + [|read|])
  {
    SkipLine(out, placed, read, desired, line);
    AddLine(out, placed, read + [line], desired, key);
    TheNextStays(placed, read, desired, line);
    InPlaceWith(out, read, desired, ps, line);
    PlacedByOneMore(placed, read, desired, line);
  }

  lemma KeepsLine(out: seq<string>, placed: set<string>, read: seq<string>, desired: map<string, string>, ps: seq<nat>, line: string)
    requires Rewritten(out, placed, read, desired, ps) && !Assigns(line, desired.Keys) && OneLine(line)
    ensures Rewritten(out + [line], placed, read + [line], desired, ps + [|read|])
  {
    KeepLine(out, placed, read, desired, line);
    TheNextStays(placed, read, desired, line);
    InPlaceWith(out, read, desired, ps, line);
    PlacedByOneMore(placed, read, desired, line);
  }

  /** One turn: the line is kept, replaced by the desired one, or dropped. */
  method RewriteLine(line: string, out: seq<string>, placed: set<string>, desired: map<string, string>,
                     ghost read: seq<string>, ghost ps: seq<nat>)
    returns (next: seq<string>, nowPlaced: set<string>, ghost qs: seq<nat>)
    requires Desirable(desired) && OneLine(line) && Rewritten(out, placed, read, desired, ps)
    ensures Rewritten(next, nowPlaced, read + [line], desired, qs)
  {
    if Assigns(line, desired.Keys) {
      var key := Assignment(line).value.0;
      if key in placed {
        DropsLine(out, placed, read, desired, ps, line);
        return out, placed, ps;
      }
      ReplacesLine(out, placed, read, desired, ps, line, key);
      return out + [NewLine(key, desired[key])], placed + {key}, ps + [|read|];
    }
    KeepsLine(out, placed, read, desired, ps, line);
    return out + [line], placed, ps + [|read|];
  }

  lemma NothingWritten(desired: map<string, string>)
    ensures Written([], {}, [], desired)
  {
    assert Restricted(desired, {}) == map[];
  }

  /** The loop over the lines of the file. */
  method Rewrite(lines: seq<string>, desired: map<string, string>)
    returns (out: seq<string>, placed: set<string>, ghost ps: seq<nat>)
    requires Desirable(desired) && forall i :: 0 <= i < |lines| ==> OneLine(lines[i])
    ensures Rewritten(out, placed, lines, desired, ps)
  {
    out, placed, ps := [], {}, [];
    NothingWritten(desired);
    assert lines[..0] == [];
    for n := 0 to |lines|
      invariant Rewritten(out, placed, lines[..n], desired, ps)
    {
      out, placed, ps := RewriteLine(lines[n], out, placed, desired, lines[..n], ps);
      assert lines[..n + 1] == lines[..n] + [lines[n]];
    }
    assert lines[..|lines|] == lines;
  }

  /** The least text of a set. */
  method Least(s: set<string>) returns (least: string)
    requires s != {}
    ensures least in s && forall x :: x in s && x != least ==> TextLess(least, x)
  {
    least := Any(s);
    var rest := s - {least};
    while rest != {}
      invariant rest <= s && least in s && least !in rest
      invariant forall x :: x in s - rest && x != least ==> TextLess(least, x)
    {
      var x := Any(rest);
      TextLessIsTotal(least, x);
      if TextLess(x, least) {
        ThenLessThanAll(x, least, s - rest);
        least := x;
      }
      rest := rest - {x};
    }
  }

  lemma ThenLessThanAll(x: string, least: string, s: set<string>)
    requires TextLess(x, least) && forall y :: y in s && y != least ==> TextLess(least, y)
    ensures forall y :: y in s ==> TextLess(x, y)
  {
    forall y | y in s && y != least
      ensures TextLess(x, y)
    {
      TextLessIsTransitive(x, least, y);
    }
  }

  /** A set of texts in their order. */
  method Sorted(s: set<string>) returns (ks: seq<string>)
    ensures AreInOrder(ks, s)
  {
    ks := [];
    var rest := s;
    assert s - rest == {};
    while rest != {}
      invariant rest <= s && AreInOrder(ks, s - rest)
      invariant forall k, x :: k in ks && x in rest ==> TextLess(k, x)
    {
      var key := Least(rest);
      NextInOrder(ks, s - rest, key);
      OneTaken(s, rest, key);
      ks, rest := ks + [key], rest - {key};
    }
    assert s - rest == s;
  }

  lemma NextInOrder(ks: seq<string>, keys: set<string>, key: string)
    requires AreInOrder(ks, keys) && forall k :: k in ks ==> TextLess(k, key)
    ensures AreInOrder(ks + [key], keys + {key})
  {
    assert forall a :: 0 <= a < |ks| ==> ks[a] in ks;
  }

  ghost function Firsts(ks: seq<string>, n: nat): set<string>
    requires n <= |ks|
  {
    set k | k in ks[..n]
  }

  ghost predicate AreDesired(ks: seq<string>, desired: map<string, string>) {
    forall i :: 0 <= i < |ks| ==> ks[i] in desired
  }

  lemma OneMoreNewLine(out: seq<string>, desired: map<string, string>, ks: seq<string>, n: nat)
    requires n < |ks| && AreDesired(ks, desired)
    ensures out + NewLines(ks[..n + 1], desired) == out + NewLines(ks[..n], desired) + [NewLine(ks[n], desired[ks[n]])]
  {
  }

  /** What the lines of the missing keys add. */
  lemma {:induction false} AppendedIsWritten(
      out: seq<string>, placed: set<string>, read: seq<string>, desired: map<string, string>, ks: seq<string>, n: nat)
    requires Written(out, placed, read, desired) && Desirable(desired) && AreDesired(ks, desired)
    requires AreInOrder(ks, desired.Keys - placed) && n <= |ks|
    ensures Written(out + NewLines(ks[..n], desired), placed + Firsts(ks, n), read, desired)
  {
    if n == 0 {
      assert placed + Firsts(ks, 0) == placed && out + NewLines(ks[..0], desired) == out;
    } else {
      AppendedIsWritten(out, placed, read, desired, ks, n - 1);
      NotAmongTheFirst(ks, desired.Keys - placed, n - 1);
      OneMoreNewLine(out, desired, ks, n - 1);
      assert placed + Firsts(ks, n) == placed + Firsts(ks, n - 1) + {ks[n - 1]};
      assert ks[n - 1] in ks;
      AddLine(out + NewLines(ks[..n - 1], desired), placed + Firsts(ks, n - 1), read, desired, ks[n - 1]);
    }
  }

  lemma AllAppended(out: seq<string>, placed: set<string>, read: seq<string>, desired: map<string, string>, ks: seq<string>)
    requires Written(out, placed, read, desired) && Desirable(desired) && AreDesired(ks, desired)
    requires AreInOrder(ks, desired.Keys - placed)
    ensures Written(out + NewLines(ks, desired), desired.Keys, read, desired)
  {
    AppendedIsWritten(out, placed, read, desired, ks, |ks|);
    assert ks[..|ks|] == ks;
    assert placed + Firsts(ks, |ks|) == desired.Keys;
  }

  lemma OrderedAreDesired(ks: seq<string>, keys: set<string>, desired: map<string, string>)
    requires AreInOrder(ks, keys) && keys <= desired.Keys
    ensures AreDesired(ks, desired)
  {
    assert forall i :: 0 <= i < |ks| ==> ks[i] in ks;
  }

  /** The loop over the keys that had no line, in their order. */
  method AppendMissing(out: seq<string>, placed: set<string>, desired: map<string, string>)
    returns (all: seq<string>, ghost ks: seq<string>)
    ensures AreInOrder(ks, desired.Keys - placed) && AreDesired(ks, desired)
    ensures all == out + NewLines(ks, desired)
  {
    var missing := Sorted(desired.Keys - placed);
    ks, all := missing, out;
    OrderedAreDesired(ks, desired.Keys - placed, desired);
    assert out + NewLines(ks[..0], desired) == out;
    for n := 0 to |missing|
      invariant all == out + NewLines(ks[..n], desired)
    {
      OneMoreNewLine(out, desired, ks, n);
      all := all + [NewLine(missing[n], desired[missing[n]])];
    }
    assert ks[..|ks|] == ks;
  }

  lemma NotAmongTheFirst(ks: seq<string>, keys: set<string>, n: nat)
    requires AreInOrder(ks, keys) && n < |ks|
    ensures ks[n] !in Firsts(ks, n) && Firsts(ks, n + 1) == Firsts(ks, n) + {ks[n]}
  {
    TextLessIsTotal(ks[n], ks[n]);
    assert ks[..n + 1] == ks[..n] + [ks[n]];
  }

  /** `fusionar_variables`: the text with the desired values, and the names that change. */
  method Merge(text: string, desired: map<string, string>)
    returns (merged: string, changed: set<string>, ghost ps: seq<nat>, ghost ks: seq<string>)
    requires Desirable(desired)
    ensures changed == Changing(ReadText(text), desired)
    ensures changed == {} ==> merged == text
    ensures ReadText(merged) == ReadText(text) + Stripped(desired)
    ensures Others(SplitLines(merged), desired.Keys) == Others(SplitLines(text), desired.Keys)
    ensures changed != {} ==> forall k :: k in desired ==> Count(SplitLines(merged), k) == 1
    ensures changed != {} ==> IsMerged(SplitLines(merged), SplitLines(text), desired, ps, ks)
    ensures Changing(ReadText(merged), desired) == {} <==> forall k :: k in desired ==> Trimmed(desired[k])
  {
    ps, ks := [], [];
    var current := ReadVariables(text);
    changed := Changing(current, desired);
    var lines := SplitLines(text);
    if changed == {} {
      NothingChanges(text, desired);
      return text, changed, ps, ks;
    }
    LinesAreOneLine(text);
    var out, placed;
    out, placed, ps := Rewrite(lines, desired);
    ghost var inPlace := out;
    out, ks := AppendMissing(out, placed, desired);
    AllAppended(inPlace, placed, lines, desired, ks);
    MergedMeans(inPlace, placed, lines, desired, ps, ks);
    WrittenMeans(out, lines, desired, changed);
    merged := Join(out, '\n') + ['\n'];
    JoinIsPrint(out);
    SplitOfPrinted(out);
    WhenItConverges(current, desired);
  }

  lemma MergedMeans(out: seq<string>, placed: set<string>, lines: seq<string>, desired: map<string, string>, ps: seq<nat>, ks: seq<string>)
    requires InPlace(out, lines, desired, ps) && PlacedAreRead(placed, lines, desired)
    requires AreInOrder(ks, desired.Keys - placed) && forall i :: 0 <= i < |ks| ==> ks[i] in desired
    ensures IsMerged(out + NewLines(ks, desired), lines, desired, ps, ks)
  {
    assert (out + NewLines(ks, desired))[..|ps|] == out;
  }

  lemma WrittenMeans(out: seq<string>, lines: seq<string>, desired: map<string, string>, changed: set<string>)
    requires Written(out, desired.Keys, lines, desired) && changed <= desired.Keys && changed != {}
    ensures out != []
    ensures ReadLines(out) == ReadLines(lines) + Stripped(desired)
  {
    assert Restricted(desired, desired.Keys) == desired;
    assert (ReadLines(lines) - desired.Keys) + Stripped(desired) == ReadLines(lines) + Stripped(desired);
    assert (forall k :: k !in changed) ==> changed == {};
    var k :| k in changed;
    assert Count(out, k) == 1;
  }

  /** The values that are read are trimmed; so the desired ones are there exactly when they are. */
  lemma WhenItConverges(values: map<string, string>, desired: map<string, string>)
    ensures Changing(values + Stripped(desired), desired) == {} <==> forall k :: k in desired ==> Trimmed(desired[k])
  {
    var after := values + Stripped(desired);
    forall k | k in desired
      ensures k in Changing(after, desired) <==> !Trimmed(desired[k])
    {
      StripIsTrimmed(desired[k]);
      if Trimmed(desired[k]) {
        StripOfTrimmed(desired[k]);
      }
    }
    assert forall k :: k in Changing(after, desired) ==> k in desired;
  }

  lemma NothingChanges(text: string, desired: map<string, string>)
    requires Changing(ReadText(text), desired) == {}
    ensures ReadText(text) == ReadText(text) + Stripped(desired)
    ensures forall k :: k in desired ==> Trimmed(desired[k])
  {
    ValuesAreTrimmed(SplitLines(text));
    forall k | k in desired
      ensures k in ReadText(text) && ReadText(text)[k] == desired[k] && Trimmed(desired[k]) && Strip(desired[k]) == desired[k]
    {
      assert k !in Changing(ReadText(text), desired);
      StripOfTrimmed(desired[k]);
    }
  }
}
