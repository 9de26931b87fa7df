/** Reading the files a claim changed out of git's NUL-separated output
    (`AgentWorkspace._changed_paths`): `diff --name-status -z` and
    `status --porcelain=v1 -z`. */
module ChangedPaths {
  import opened Wrappers
  import opened Text

  const NUL := '\0'

  // -------------------------------------------------------------------------
  // What git prints
  // -------------------------------------------------------------------------

  /** A record of `--name-status`: renames and copies carry two paths. */
  datatype NameStatus = Changed(status: string, path: string) | Moved(status: string, source: string, target: string)
  {
    predicate Valid() {
      && NUL !in status
      && match this
         case Changed(_, path) => status != "" && status[0] != 'R' && status[0] != 'C' && NUL !in path
         case Moved(_, source, target) =>
           status != "" && (status[0] == 'R' || status[0] == 'C') && NUL !in source && NUL !in target
    }

    function Text(): string {
      match this
      case Changed(_, path) => status + [NUL] + (path + [NUL])
      case Moved(_, source, target) => status + [NUL] + (source + [NUL] + (target + [NUL]))
    }

    function Fields(): seq<string> {
      match this
      case Changed(_, path) => [status, path]
      case Moved(_, source, target) => [status, source, target]
    }

    function Paths(): set<string> {
      match this
      case Changed(_, path) => {path}
      case Moved(_, source, target) => {source, target}
    }
  }

  /** A record of the porcelain format: two letters, the path, and for renames and
      copies the path it came from. */
  datatype Porcelain = Porcelain(index: char, worktree: char, path: string, source: Option<string>)
  {
    predicate Valid() {
      && index != NUL && worktree != NUL && NUL !in path && path != ""
      && (source.Some? <==> index in "RC" || worktree in "RC")
      && (source.Some? ==> NUL !in source.value && source.value != "")
    }

    function First(): string {
      [index, worktree, ' '] + path
    }

    function Text(): string {
      First() + [NUL] + if source.Some? then source.value + [NUL] else ""
    }

    function Fields(): seq<string> {
      [First()] + if source.Some? then [source.value] else []
    }

    function Paths(): set<string> {
      {path} + if source.Some? then {source.value} else {}
    }
  }

  predicate Moves(status: string) {
    status != "" && status[0] in "RC"
  }

  function PrintNameStatus(records: seq<NameStatus>): string {
    if records == [] then "" else records[0].Text() + PrintNameStatus(records[1..])
  }

  function PrintPorcelain(records: seq<Porcelain>): string {
    if records == [] then "" else records[0].Text() + PrintPorcelain(records[1..])
  }

  function NameStatusPaths(records: seq<NameStatus>): set<string> {
    if records == [] then {} else records[0].Paths() + NameStatusPaths(records[1..])
  }

  function PorcelainPaths(records: seq<Porcelain>): set<string> {
    if records == [] then {} else records[0].Paths() + PorcelainPaths(records[1..])
  }

  // -------------------------------------------------------------------------
  // What the two loops read, for any fields
  // -------------------------------------------------------------------------

  /** `None` where the loop would index beyond the fields. */
  function ReadNameStatus(fields: seq<string>): Option<set<string>> {
    if |fields| <= 1 then Some({})
    else if Moves(fields[0]) then
      if |fields| < 3 then None
      else AddTo({fields[1], fields[2]}, ReadNameStatus(fields[3..]))
    else AddTo({fields[1]}, ReadNameStatus(fields[2..]))
  }

  function AddTo(paths: set<string>, rest: Option<set<string>>): Option<set<string>> {
    match rest
    case None => None
    case Some(others) => Some(paths + others)
  }

  function Value(record: string): set<string> {
    if |record| <= 3 then {} else {record[3..]}
  }

  predicate NamesSource(record: string) {
    exists i :: 0 <= i < |record| && i < 2 && record[i] in "RC"
  }

  function NotEmpty(path: string): set<string> {
    if path == "" then {} else {path}
  }

  function ReadPorcelain(fields: seq<string>): Option<set<string>> {
    if |fields| <= 1 then Some({})
    else if NamesSource(fields[0]) then AddTo(Value(fields[0]) + NotEmpty(fields[1]), ReadPorcelain(fields[2..]))
    else AddTo(Value(fields[0]), ReadPorcelain(fields[1..]))
  }

  /** What is collected and what is still to be read make up the whole. */
  predicate SameAfter(changed: set<string>, rest: Option<set<string>>, whole: Option<set<string>>) {
    match whole
    case None => rest.None?
    case Some(all) => rest.Some? && all == changed + rest.value
  }

  /** The first loop. `None` stands for an index beyond the fields. */
  method CollectCommitted(output: string) returns (r: Option<set<string>>)
    ensures r == ReadNameStatus(Split(output, NUL))
  {
    var fields := Split(output, NUL);
    var changed: set<string> := {};
    var index := 0;
    assert fields[0..] == fields;
    while index < |fields| - 1
      invariant 0 <= index <= |fields|
      invariant SameAfter(changed, ReadNameStatus(fields[index..]), ReadNameStatus(fields))
    {
      var status := fields[index];
      if Moves(status) {
        if index + 2 >= |fields| {
          return None;
        }
        assert fields[index..][3..] == fields[index + 3..];
        changed := changed + {fields[index + 1]} + {fields[index + 2]};
        index := index + 3;
      } else {
        assert fields[index..][2..] == fields[index + 2..];
        changed := changed + {fields[index + 1]};
        index := index + 2;
      }
    }
    return Some(changed);
  }

  /** The second loop. */
  method CollectStatus(output: string) returns (r: Option<set<string>>)
    ensures r == ReadPorcelain(Split(output, NUL))
    ensures r.Some? && "" !in r.value
  {
    ReadPorcelainNeverFails(Split(output, NUL));
    var fields := Split(output, NUL);
    var changed: set<string> := {};
    var index := 0;
    assert fields[0..] == fields;
    while index < |fields| - 1
      invariant 0 <= index <= |fields|
      invariant SameAfter(changed, ReadPorcelain(fields[index..]), ReadPorcelain(fields))
    {
      NextRecord(fields, index);
      var record := fields[index];
      index := index + 1;
      changed := changed + Value(record);
      if NamesSource(record) {
        changed := changed + NotEmpty(fields[index]);
        index := index + 1;
      }
    }
    return Some(changed);
  }

  lemma NextRecord(fields: seq<string>, index: nat)
    requires index + 1 < |fields|
    ensures ReadPorcelain(fields[index..])
            == if NamesSource(fields[index])
               then AddTo(Value(fields[index]) + NotEmpty(fields[index + 1]), ReadPorcelain(fields[index + 2..]))
               else AddTo(Value(fields[index]), ReadPorcelain(fields[index + 1..]))
  {
    assert fields[index..][1..] == fields[index + 1..];
    assert fields[index..][2..] == fields[index + 2..];
  }

  /** Whatever the output, the second loop never indexes beyond its fields and collects no
      empty path. */
  lemma {:induction false} ReadPorcelainNeverFails(fields: seq<string>)
    ensures ReadPorcelain(fields).Some? && "" !in ReadPorcelain(fields).value
  {
    if |fields| > 1 {
      ReadPorcelainNeverFails(fields[1..]);
      ReadPorcelainNeverFails(fields[2..]);
    }
  }

  // -------------------------------------------------------------------------
  // Reading undoes printing
  // -------------------------------------------------------------------------

  lemma SplitField(field: string, rest: string)
    requires NUL !in field
    ensures Split(field + [NUL] + rest, NUL) == [field] + Split(rest, NUL)
  {
    SplitFirst(field, rest, NUL);
  }

  lemma SplitTwoFields(first: string, second: string, rest: string)
    requires NUL !in first && NUL !in second
    ensures Split(first + [NUL] + (second + [NUL]) + rest, NUL) == [first, second] + Split(rest, NUL)
  {
    SplitField(second, rest);
    SplitField(first, second + [NUL] + rest);
    Associate(first + [NUL], second + [NUL], rest);
    Associate([first], [second], Split(rest, NUL));
  }

  lemma SplitThreeFields(first: string, second: string, third: string, rest: string)
    requires NUL !in first && NUL !in second && NUL !in third
    ensures Split(first + [NUL] + (second + [NUL] + (third + [NUL])) + rest, NUL) == [first, second, third] + Split(rest, NUL)
  {
    var tail := second + [NUL] + (third + [NUL]);
    SplitTwoFields(second, third, rest);
    SplitField(first, tail + rest);
    Associate(first + [NUL], tail, rest);
    Associate([first], [second, third], Split(rest, NUL));
  }

  lemma NameStatusFields(record: NameStatus, rest: string)
    requires record.Valid()
    ensures Split(record.Text() + rest, NUL) == record.Fields() + Split(rest, NUL)
  {
    match record
    case Changed(status, path) => SplitTwoFields(status, path, rest);
    case Moved(status, source, target) => SplitThreeFields(status, source, target, rest);
  }

  lemma {:induction false} ReadNameStatusUndoesPrint(records: seq<NameStatus>)
    requires forall i :: 0 <= i < |records| ==> records[i].Valid()
    ensures ReadNameStatus(Split(PrintNameStatus(records), NUL)) == Some(NameStatusPaths(records))
  {
    if records != [] {
      var rest := Split(PrintNameStatus(records[1..]), NUL);
      ReadNameStatusUndoesPrint(records[1..]);
      NameStatusFields(records[0], PrintNameStatus(records[1..]));
      var fields := records[0].Fields() + rest;
      if records[0].Changed? {
        assert fields[2..] == rest;
      } else {
        assert fields[3..] == rest;
      }
    }
  }

  lemma PorcelainFields(record: Porcelain, rest: string)
    requires record.Valid()
    ensures Split(record.Text() + rest, NUL) == record.Fields() + Split(rest, NUL)
  {
    var first := record.First();
    if record.source.Some? {
      SplitTwoFields(first, record.source.value, rest);
    } else {
      SplitField(first, rest);
      assert record.Text() + rest == first + [NUL] + rest;
    }
  }

  lemma {:induction false} ReadPorcelainUndoesPrint(records: seq<Porcelain>)
    requires forall i :: 0 <= i < |records| ==> records[i].Valid()
    ensures ReadPorcelain(Split(PrintPorcelain(records), NUL)) == Some(PorcelainPaths(records))
  {
    if records != [] {
      var record, rest := records[0], Split(PrintPorcelain(records[1..]), NUL);
      ReadPorcelainUndoesPrint(records[1..]);
      PorcelainFields(record, PrintPorcelain(records[1..]));
      var first := record.First();
      assert first[0] == record.index && first[1] == record.worktree && first[3..] == record.path;
      assert NamesSource(first) <==> record.source.Some?;
      var fields := record.Fields() + rest;
      if record.source.Some? {
        assert fields[2..] == rest && fields[1] == record.source.value;
      } else {
        assert fields[1..] == rest;
        assert Value(first) == record.Paths();
      }
    }
  }

  /** All the files a claim changed, committed or not: exactly the paths git printed. */
  method ChangedPathsOf(committed: seq<NameStatus>, status: seq<Porcelain>) returns (changed: set<string>)
    requires forall i :: 0 <= i < |committed| ==> committed[i].Valid()
    requires forall i :: 0 <= i < |status| ==> status[i].Valid()
    ensures changed == NameStatusPaths(committed) + PorcelainPaths(status)
  {
    ReadNameStatusUndoesPrint(committed);
    ReadPorcelainUndoesPrint(status);
    var a := CollectCommitted(PrintNameStatus(committed));
    var b := CollectStatus(PrintPorcelain(status));
    changed := a.value + b.value;
  }
}
