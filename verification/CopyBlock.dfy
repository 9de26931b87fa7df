/** The values of a script, printed as a PostgreSQL COPY block in text format
    (`_copy_escape`, `_args_block`), and the reading of such a block. */
module CopyBlock {
  import opened Wrappers
  import opened Text

  const BACKSLASH := '\\'
  const TAB := '\t'
  const NEWLINE := '\n'
  const RETURN := '\r'

  // -------------------------------------------------------------------------
  // Printing
  // -------------------------------------------------------------------------

  /** `_copy_escape`: four replacements, one after the other. */
  function Escape(s: string): string {
    Replace(Replace(Replace(Replace(s, BACKSLASH, "\\\\"), TAB, "\\t"), NEWLINE, "\\n"), RETURN, "\\r")
  }

  function EscapeChar(c: char): string {
    if c == BACKSLASH then "\\\\"
    else if c == TAB then "\\t"
    else if c == NEWLINE then "\\n"
    else if c == RETURN then "\\r"
    else [c]
  }

  /** The same, character by character. */
  function EscapeEach(s: string): string {
    if s == "" then "" else EscapeChar(s[0]) + EscapeEach(s[1..])
  }

  lemma EscapeOfConcatenation(a: string, b: string)
    ensures Escape(a + b) == Escape(a) + Escape(b)
  {
    var a1, b1 := Replace(a, BACKSLASH, "\\\\"), Replace(b, BACKSLASH, "\\\\");
    var a2, b2 := Replace(a1, TAB, "\\t"), Replace(b1, TAB, "\\t");
    var a3, b3 := Replace(a2, NEWLINE, "\\n"), Replace(b2, NEWLINE, "\\n");
    ReplaceOfConcatenation(a, b, BACKSLASH, "\\\\");
    ReplaceOfConcatenation(a1, b1, TAB, "\\t");
    ReplaceOfConcatenation(a2, b2, NEWLINE, "\\n");
    ReplaceOfConcatenation(a3, b3, RETURN, "\\r");
  }

  lemma ReplaceInOne(c: char, d: char, put: string)
    ensures Replace([c], d, put) == if c == d then put else [c]
  {
    assert Replace([c][1..], d, put) == "";
  }

  lemma EscapeOne(c: char)
    ensures Escape([c]) == EscapeChar(c)
  {
    ReplaceInOne(c, BACKSLASH, "\\\\");
    ReplaceInOne(c, TAB, "\\t");
    ReplaceInOne(c, NEWLINE, "\\n");
    ReplaceInOne(c, RETURN, "\\r");
    var e := EscapeChar(c);
    if |e| == 2 {
      assert TAB !in e && NEWLINE !in e && RETURN !in e;
      NothingToReplace(e, TAB, "\\t");
      NothingToReplace(e, NEWLINE, "\\n");
      NothingToReplace(e, RETURN, "\\r");
    }
  }

  /** The chain of replacements never touches what an earlier one put. */
  lemma {:induction false} EscapeIsEach(s: string)
    ensures Escape(s) == EscapeEach(s)
  {
    if s != "" {
      EscapeIsEach(s[1..]);
      EscapeOne(s[0]);
      EscapeOfConcatenation([s[0]], s[1..]);
      assert s == [s[0]] + s[1..];
    }
  }

  /** A value of the block: its text, or NULL. */
  datatype Arg = Arg(key: string, value: Option<string>)

  predicate KeyChar(c: char) {
    'a' <= c <= 'z' || c == '_'
  }

  predicate ValidKey(key: string) {
    1 <= |key| <= 32 && forall i :: 0 <= i < |key| ==> KeyChar(key[i])
  }

  const NULL_MARK := "\\N"
  const END := "\\."

  function Shown(value: Option<string>): string {
    match value
    case None => NULL_MARK
    case Some(text) => Escape(text)
  }

  function Line(arg: Arg): string {
    arg.key + [TAB] + Shown(arg.value)
  }

  /** The data of the block: a line for each value, then the mark of the end. */
  function Data(args: seq<Arg>): string {
    if args == [] then END + [NEWLINE] else Line(args[0]) + [NEWLINE] + Data(args[1..])
  }

  predicate ValidArgs(args: seq<Arg>) {
    forall i :: 0 <= i < |args| ==> ValidKey(args[i].key)
  }

  /** The lines before the mark of the end. */
  function LinesOf(args: seq<Arg>): string {
    if args == [] then "" else LinesOf(args[..|args| - 1]) + (Line(args[|args| - 1]) + [NEWLINE])
  }

  lemma {:induction false} LinesThenEnd(args: seq<Arg>, rest: seq<Arg>)
    ensures LinesOf(args) + Data(rest) == Data(args + rest)
  {
    if args == [] {
      assert args + rest == rest;
    } else {
      var init, last := args[..|args| - 1], args[|args| - 1];
      assert init + ([last] + rest) == args + rest;
      assert ([last] + rest)[1..] == rest;
      Associate(LinesOf(init), Line(last) + [NEWLINE], Data(rest));
      LinesThenEnd(init, [last] + rest);
    }
  }

  lemma DataOf(args: seq<Arg>)
    ensures LinesOf(args) + (END + [NEWLINE]) == Data(args)
  {
    LinesThenEnd(args, []);
    assert args + [] == args;
  }

  lemma OneMoreLine(args: seq<Arg>, n: nat)
    requires n < |args|
    ensures LinesOf(args[..n + 1]) == LinesOf(args[..n]) + (Line(args[n]) + [NEWLINE])
  {
    assert args[..n + 1][..n] == args[..n];
  }

  /** One turn: the line of a value, refused when its key is not a plain name. */
  method PrintLine(args: seq<Arg>, n: nat, lines: string) returns (r: Option<string>)
    requires n < |args| && lines == LinesOf(args[..n])
    ensures r.Some? <==> ValidKey(args[n].key)
    ensures r.Some? ==> r.value == LinesOf(args[..n + 1])
  {
    if !ValidKey(args[n].key) {
      return None;
    }
    OneMoreLine(args, n);
    return Some(lines + (Line(args[n]) + [NEWLINE]));
  }

  lemma OneMoreValid(args: seq<Arg>, n: nat)
    requires n < |args|
    ensures ValidArgs(args[..n + 1]) <==> ValidArgs(args[..n]) && ValidKey(args[n].key)
    ensures ValidArgs(args) ==> ValidKey(args[n].key)
  {
    assert args[..n + 1] == args[..n] + [args[n]];
  }

  /** The loop over the values. */
  method PrintLines(args: seq<Arg>) returns (r: Option<string>)
    ensures r.Some? <==> ValidArgs(args)
    ensures r.Some? ==> r.value == LinesOf(args)
  {
    var lines: string := "";
    for n := 0 to |args|
      invariant ValidArgs(args[..n]) && lines == LinesOf(args[..n])
    {
      OneMoreValid(args, n);
      var more := PrintLine(args, n, lines);
      if more.None? {
        return None;
      }
      lines := more.value;
    }
    assert args[..|args|] == args;
    return Some(lines);
  }

  /** Only the letters from "a" to "z" and the underscore. */
  predicate IsPlain(key: string) {
    forall c :: c in key ==> c in "abcdefghijklmnopqrstuvwxyz_"
  }

  lemma PlainMeans(key: string)
    ensures ValidKey(key) <==> 1 <= |key| <= 32 && IsPlain(key)
  {
    var letters := "abcdefghijklmnopqrstuvwxyz_";
    forall c: char
      ensures KeyChar(c) <==> c in letters
    {
      if KeyChar(c) && c != '_' {
        assert letters[c as int - 'a' as int] == c;
      } else if c == '_' {
        assert letters[26] == c;
      }
    }
    assert forall i :: 0 <= i < |key| ==> key[i] in key;
  }

  /** `_args_block`: refused when a key is not a plain name. `head` are the statements
      that create the table and open the copy. */
  method ArgsBlock(head: string, args: seq<Arg>) returns (r: Option<string>)
    ensures r.Some? <==> forall i :: 0 <= i < |args| ==> 1 <= |args[i].key| <= 32 && IsPlain(args[i].key)
    ensures r.Some? ==> r.value == head + Data(args)
  {
    forall i | 0 <= i < |args|
      ensures ValidKey(args[i].key) <==> 1 <= |args[i].key| <= 32 && IsPlain(args[i].key)
    {
      PlainMeans(args[i].key);
    }
    var lines := PrintLines(args);
    if lines.None? {
      return None;
    }
    DataOf(args);
    return Some(head + (lines.value + (END + [NEWLINE])));
  }

  // -------------------------------------------------------------------------
  // Reading, as the server does
  // -------------------------------------------------------------------------

  /** The text up to a separator, and what comes after it. A backslash takes the next
      character along, whatever it is. */
  function Take(s: string, sep: char): Option<(string, string)> {
    if s == "" then None
    else if s[0] == sep then Some(("", s[1..]))
    else
      var n := if s[0] == BACKSLASH && |s| >= 2 then 2 else 1;
      match Take(s[n..], sep)
      case None => None
      case Some((first, rest)) => Some((s[..n] + first, rest))
  }

  function UnescapeChar(c: char): char {
    if c == 't' then TAB else if c == 'n' then NEWLINE else if c == 'r' then RETURN
    else if c == 'b' then '\U{8}' else if c == 'f' then '\U{c}' else if c == 'v' then '\U{b}' else c
  }

  function Unescape(s: string): string {
    if s == "" then ""
    else if s[0] == BACKSLASH && |s| >= 2 then [UnescapeChar(s[1])] + Unescape(s[2..])
    else [s[0]] + Unescape(s[1..])
  }

  function ReadValue(text: string): Option<string> {
    if text == NULL_MARK then None else Some(Unescape(text))
  }

  /** A line with exactly two columns. */
  function ReadLine(line: string): Option<Arg> {
    match Take(line, TAB)
    case None => None
    case Some((key, value)) =>
      if Take(value, TAB).Some? then None else Some(Arg(Unescape(key), ReadValue(value)))
  }

  lemma {:induction false} TakeShortens(s: string, sep: char)
    ensures Take(s, sep).Some? ==> |Take(s, sep).value.1| < |s|
  {
    if s != "" && s[0] != sep {
      var n := if s[0] == BACKSLASH && |s| >= 2 then 2 else 1;
      TakeShortens(s[n..], sep);
    }
  }

  /** The values up to the mark of the end, and the script that follows it. */
  function Read(s: string): Option<(seq<Arg>, string)>
    decreases |s|
  {
    TakeShortens(s, NEWLINE);
    match Take(s, NEWLINE)
    case None => None
    case Some((line, rest)) =>
      if line == END then Some(([], rest))
      else
        match ReadLine(line)
        case None => None
        case Some(arg) =>
          match Read(rest)
          case None => None
          case Some((args, after)) => Some(([arg] + args, after))
  }

  // -------------------------------------------------------------------------
  // Reading undoes printing
  // -------------------------------------------------------------------------

  /** No separator, and every backslash is followed by the character it escapes. */
  predicate Closed(s: string, sep: char) {
    s == ""
    || (s[0] == BACKSLASH && |s| >= 2 && Closed(s[2..], sep))
    || (s[0] != BACKSLASH && s[0] != sep && Closed(s[1..], sep))
  }

  lemma {:induction false} TakeClosed(a: string, sep: char, rest: string)
    requires Closed(a, sep) && sep != BACKSLASH
    ensures Take(a + [sep] + rest, sep) == Some((a, rest))
  {
    var s := a + [sep] + rest;
    if a == "" {
      assert s == [sep] + rest;
    } else {
      var n := if a[0] == BACKSLASH then 2 else 1;
      assert s[n..] == a[n..] + [sep] + rest && s[..n] == a[..n];
      TakeClosed(a[n..], sep, rest);
      assert a[..n] + a[n..] == a;
    }
  }

  lemma {:induction false} TakeNothing(a: string, sep: char)
    requires Closed(a, sep) && sep != BACKSLASH
    ensures Take(a, sep) == None
  {
    if a != "" {
      var n := if a[0] == BACKSLASH then 2 else 1;
      TakeNothing(a[n..], sep);
    }
  }

  lemma {:induction false} ClosedOfConcatenation(a: string, b: string, sep: char)
    requires Closed(a, sep) && Closed(b, sep)
    ensures Closed(a + b, sep)
  {
    if a == "" {
      assert a + b == b;
    } else {
      var n := if a[0] == BACKSLASH then 2 else 1;
      assert (a + b)[n..] == a[n..] + b;
      ClosedOfConcatenation(a[n..], b, sep);
    }
  }

  lemma {:induction false} EscapedIsClosed(s: string, sep: char)
    requires sep == TAB || sep == NEWLINE
    ensures Closed(EscapeEach(s), sep)
  {
    if s != "" {
      EscapedIsClosed(s[1..], sep);
      ClosedOfConcatenation(EscapeChar(s[0]), EscapeEach(s[1..]), sep);
    }
  }

  lemma {:induction false} PlainIsClosed(key: string, sep: char)
    requires (forall i :: 0 <= i < |key| ==> KeyChar(key[i])) && (sep == TAB || sep == NEWLINE)
    ensures Closed(key, sep) && Unescape(key) == key
  {
    if key != "" {
      PlainIsClosed(key[1..], sep);
      assert key == [key[0]] + key[1..];
    }
  }

  lemma UnescapeOne(c: char, rest: string)
    ensures Unescape(EscapeChar(c) + rest) == [c] + Unescape(rest)
  {
    var e := EscapeChar(c);
    assert (e + rest)[|e|..] == rest;
    assert (e + rest)[0] == e[0];
    if |e| == 2 {
      assert (e + rest)[1] == e[1];
    }
  }

  lemma {:induction false} UnescapeUndoes(s: string)
    ensures Unescape(EscapeEach(s)) == s
  {
    if s != "" {
      UnescapeUndoes(s[1..]);
      UnescapeOne(s[0], EscapeEach(s[1..]));
      assert s == [s[0]] + s[1..];
    }
  }

  /** No text is printed as the mark of NULL: the text `\N` least of all. */
  lemma TextIsNotNull(text: string)
    ensures Shown(Some(text)) != NULL_MARK
  {
    EscapeIsEach(text);
    if text != "" {
      var e, first := EscapeEach(text), EscapeChar(text[0]);
      assert first[0] == e[0];
      if |first| == 2 {
        assert e[1] == first[1];
      }
    }
  }

  lemma ShownReadsBack(value: Option<string>)
    ensures Closed(Shown(value), TAB) && Closed(Shown(value), NEWLINE) && ReadValue(Shown(value)) == value
  {
    if value.Some? {
      EscapeIsEach(value.value);
      EscapedIsClosed(value.value, TAB);
      EscapedIsClosed(value.value, NEWLINE);
      UnescapeUndoes(value.value);
      TextIsNotNull(value.value);
    } else {
      assert Closed(NULL_MARK[2..], TAB) && Closed(NULL_MARK[2..], NEWLINE);
    }
  }

  /** A line is read back, and is never the mark of the end. */
  lemma LineReadsBack(arg: Arg)
    requires ValidKey(arg.key)
    ensures Closed(Line(arg), NEWLINE) && Line(arg) != END && ReadLine(Line(arg)) == Some(arg)
  {
    var value := Shown(arg.value);
    ShownReadsBack(arg.value);
    PlainIsClosed(arg.key, TAB);
    PlainIsClosed(arg.key, NEWLINE);
    assert arg.key + [TAB] + value == Line(arg);
    TakeClosed(arg.key, TAB, value);
    TakeNothing(value, TAB);
    assert Closed([TAB], NEWLINE);
    ClosedOfConcatenation(arg.key, [TAB], NEWLINE);
    ClosedOfConcatenation(arg.key + [TAB], value, NEWLINE);
    assert Line(arg)[0] == arg.key[0] && END[0] == BACKSLASH;
  }

  /** Reading a printed block gives back exactly its values, NULL apart from any text,
      and leaves the script after it untouched: no value ends the block. */
  lemma {:induction false} ReadUndoesPrint(args: seq<Arg>, script: string)
    requires ValidArgs(args)
    ensures Read(Data(args) + script) == Some((args, script))
  {
    if args == [] {
      assert Closed(END[2..], NEWLINE);
      TakeClosed(END, NEWLINE, script);
    } else {
      var line := Line(args[0]);
      LineReadsBack(args[0]);
      ReadUndoesPrint(args[1..], script);
      ReadNext(line, Data(args[1..]), script, args[0], args[1..]);
      assert args == [args[0]] + args[1..];
    }
  }

  lemma ReadNext(line: string, data: string, script: string, arg: Arg, args: seq<Arg>)
    requires Closed(line, NEWLINE) && line != END && ReadLine(line) == Some(arg)
    requires Read(data + script) == Some((args, script))
    ensures Read(line + [NEWLINE] + data + script) == Some(([arg] + args, script))
  {
    TakeClosed(line, NEWLINE, data + script);
    Associate(line + [NEWLINE], data, script);
  }
}
