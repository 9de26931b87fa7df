/** The scopes of a claim: repository paths and when two of them overlap
    (`_normalize_scope_path`, `_paths_overlap`). */
module ClaimPaths {
  import opened Wrappers
  import opened Text

  predicate IsPart(piece: string) {
    piece != "" && piece != "." && '/' !in piece
  }

  function Kept(pieces: seq<string>): seq<string> {
    if pieces == [] then []
    else if pieces[0] == "" || pieces[0] == "." then Kept(pieces[1..])
    else [pieces[0]] + Kept(pieces[1..])
  }

  /** `PurePosixPath(path).parts` of a relative path. */
  function Parts(path: string): seq<string> {
    Kept(Split(path, '/'))
  }

  /** `as_posix`: the path with the given parts; `.` is the root of the repository. */
  function AsPosix(parts: seq<string>): string {
    if parts == [] then "." else Join(parts, '/')
  }

  function Slashes(s: string): string {
    seq(|s|, i requires 0 <= i < |s| => if s[i] == '\\' then '/' else s[i])
  }

  function WithoutFinalSlashes(s: string): string {
    if s != "" && s[|s| - 1] == '/' then WithoutFinalSlashes(s[..|s| - 1]) else s
  }

  predicate HasDrive(s: string) {
    |s| >= 3 && ('a' <= s[0] <= 'z' || 'A' <= s[0] <= 'Z') && s[1] == ':' && s[2] == '/'
  }

  /** The stored form of a scope, `None` when the value is not a path of the repository. */
  function Normalize(value: string): Option<string> {
    var candidate := Slashes(Strip(value));
    if (candidate != "" && candidate[0] == '/') || HasDrive(candidate) then None
    else
      var path := WithoutFinalSlashes(candidate);
      if path == "" || ".." in Parts(path) then None
      else Some(AsPosix(Parts(path)))
  }

  /** The path of a file is the scope itself or is under it. */
  predicate AtOrBelow(file: string, scope: string) {
    Parts(scope) <= Parts(file)
  }

  predicate Overlap(left: string, right: string) {
    var shortest := if |Parts(left)| < |Parts(right)| then |Parts(left)| else |Parts(right)|;
    Parts(left)[..shortest] == Parts(right)[..shortest]
  }

  lemma {:induction false} KeptAreParts(pieces: seq<string>)
    requires forall i :: 0 <= i < |pieces| ==> '/' !in pieces[i]
    ensures forall i :: 0 <= i < |Kept(pieces)| ==> IsPart(Kept(pieces)[i])
  {
    if pieces != [] {
      KeptAreParts(pieces[1..]);
    }
  }

  lemma {:induction false} KeptOfParts(pieces: seq<string>)
    requires forall i :: 0 <= i < |pieces| ==> IsPart(pieces[i])
    ensures Kept(pieces) == pieces
  {
    if pieces != [] {
      KeptOfParts(pieces[1..]);
    }
  }

  lemma {:induction false} KeptOfConcatenation(a: seq<string>, b: seq<string>)
    ensures Kept(a + b) == Kept(a) + Kept(b)
  {
    if a == [] {
      assert a + b == b;
    } else {
      assert (a + b)[1..] == a[1..] + b;
      KeptOfConcatenation(a[1..], b);
    }
  }

  /** A path is given back by its parts. */
  lemma PartsOfAsPosix(parts: seq<string>)
    requires forall i :: 0 <= i < |parts| ==> IsPart(parts[i])
    ensures Parts(AsPosix(parts)) == parts
  {
    if parts == [] {
      SplitWhole(".", '/');
    } else {
      SplitOfJoin(parts, '/');
      KeptOfParts(parts);
    }
  }

  lemma PartsAreParts(path: string)
    ensures forall i :: 0 <= i < |Parts(path)| ==> IsPart(Parts(path)[i])
  {
    JoinOfSplit(path, '/');
    KeptAreParts(Split(path, '/'));
  }

  lemma {:induction false} SplitOfOneMore(s: string)
    ensures Split(s + "/", '/') == Split(s, '/') + [""]
  {
    if s == "" {
      SplitFirst("", "", '/');
      assert s + "/" == "" + ['/'] + "";
    } else {
      assert (s + "/")[1..] == s[1..] + "/";
      SplitOfOneMore(s[1..]);
    }
  }

  lemma {:induction false} FinalSlashesDoNotCount(s: string)
    ensures Parts(WithoutFinalSlashes(s)) == Parts(s)
  {
    if s != "" && s[|s| - 1] == '/' {
      var less := s[..|s| - 1];
      assert s == less + "/";
      SplitOfOneMore(less);
      KeptOfConcatenation(Split(less, '/'), [""]);
      assert Kept([""]) == [];
      FinalSlashesDoNotCount(less);
    }
  }

  /** Normalizing keeps what a scope covers, and what it keeps never leaves the repository. */
  lemma NormalizeKeepsTheScope(value: string)
    ensures Normalize(value).Some? ==>
              Parts(Normalize(value).value) == Parts(Slashes(Strip(value)))
              && ".." !in Parts(Normalize(value).value)
              && Normalize(value).value != "" && Normalize(value).value[0] != '/'
  {
    var candidate := Slashes(Strip(value));
    var path := WithoutFinalSlashes(candidate);
    FinalSlashesDoNotCount(candidate);
    PartsAreParts(path);
    PartsOfAsPosix(Parts(path));
    if Parts(path) != [] {
      assert AsPosix(Parts(path))[0] == Parts(path)[0][0];
    }
  }

  /** Exactly which values are paths of the repository: not empty, not absolute, not on a
      drive, and without a step up. */
  lemma NormalizeMeans(value: string)
    ensures var c := Slashes(Strip(value));
            Normalize(value).Some? <==>
              && c != "" && c[0] != '/' && ".." !in Parts(c)
              && !(|c| >= 3 && ('a' <= c[0] <= 'z' || 'A' <= c[0] <= 'Z') && c[1] == ':' && c[2] == '/')
  {
    var c := Slashes(Strip(value));
    FinalSlashesDoNotCount(c);
    if c != "" && c[0] != '/' {
      FirstStays(c);
    }
  }

  lemma {:induction false} FirstStays(s: string)
    requires s != "" && s[0] != '/'
    ensures WithoutFinalSlashes(s) != ""
  {
    if s[|s| - 1] == '/' {
      FirstStays(s[..|s| - 1]);
    }
  }

  /** A path may be written with backslashes. */
  lemma BackslashesAreSlashes(parts: seq<string>)
    requires parts != [] && forall i :: 0 <= i < |parts| ==> IsPart(parts[i]) && '\\' !in parts[i]
    ensures Parts(Slashes(Join(parts, '\\'))) == parts && Parts(Slashes(Join(parts, '/'))) == parts
  {
    SlashesOfJoin(parts, '\\');
    SlashesOfJoin(parts, '/');
    SplitOfJoin(parts, '/');
    KeptOfParts(parts);
  }

  lemma {:induction false} SlashesOfJoin(parts: seq<string>, sep: char)
    requires parts != [] && (sep == '/' || sep == '\\') && forall i :: 0 <= i < |parts| ==> '\\' !in parts[i]
    ensures Slashes(Join(parts, sep)) == Join(parts, '/')
  {
    assert Slashes(parts[0]) == parts[0];
    if |parts| > 1 {
      SlashesOfJoin(parts[1..], sep);
      assert Slashes(parts[0] + [sep] + Join(parts[1..], sep)) == Slashes(parts[0]) + ['/'] + Slashes(Join(parts[1..], sep));
    }
  }

  /** Two scopes overlap exactly when some file is at or below both. */
  lemma OverlapMeansSharedFile(left: string, right: string)
    ensures Overlap(left, right) <==> exists file :: AtOrBelow(file, left) && AtOrBelow(file, right)
    ensures Overlap(left, right) <==> Overlap(right, left)
  {
    if Overlap(left, right) {
      assert AtOrBelow(left, left) && AtOrBelow(right, right);
      assert AtOrBelow(left, right) || AtOrBelow(right, left);
    }
  }
}
