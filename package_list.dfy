/** The parser of MainWindow::readPackageList: a package index in the
    "Package: / Version: / Description:" format is read line by line into
    three lists, which are then combined into a map from package name to
    [version, description]. */
module PackageList {
  import opened Strings

  /** The three lists the parser fills. */
  datatype Field = Package | Version | Description

  /** The marker that opens a line of each field. */
  function Marker(f: Field): string {
    match f
    case Package => "Package: "
    case Version => "Version: "
    case Description => "Description: "
  }

  /** What one line contributes: a value for one field, or nothing. */
  datatype LineKind = Value(field: Field, value: string) | Ignored

  /** The else-if chain of the parsing loop. A matching line loses every
      occurrence of its marker (QString::remove), not only the leading one. */
  function ClassifyLine(line: string): LineKind {
    if StartsWith(line, "Package: ") then Value(Package, RemoveAll(line, "Package: "))
    else if StartsWith(line, "Version: ") then Value(Version, RemoveAll(line, "Version: "))
    else if StartsWith(line, "Description: ") then Value(Description, RemoveAll(line, "Description: "))
    else Ignored
  }

  /** The markers exclude each other, so a line feeds field `f` exactly when
      it starts with the marker of `f`, whatever the order of the chain. */
  lemma ClassifyLineIff(line: string, f: Field)
    ensures ClassifyLine(line).Value? && ClassifyLine(line).field == f <==> StartsWith(line, Marker(f))
    ensures StartsWith(line, Marker(f)) ==> ClassifyLine(line).value == RemoveAll(line, Marker(f))
  {
    if StartsWith(line, "Package: ") {
      assert line[0] == 'P';
    }
    if StartsWith(line, "Version: ") {
      assert line[0] == 'V';
    }
    if StartsWith(line, "Description: ") {
      assert line[0] == 'D';
    }
  }

  /** The values one line adds to the list of field `f`. */
  function LineValues(line: string, f: Field): seq<string> {
    match ClassifyLine(line)
    case Value(g, v) => if g == f then [v] else []
    case Ignored => []
  }

  /** The list of field `f` after reading `lines` in order. */
  function Values(lines: seq<string>, f: Field): seq<string> {
    if lines == [] then [] else Values(lines[..|lines| - 1], f) + LineValues(lines[|lines| - 1], f)
  }

  /** Reading is line by line: the values of two blocks of lines are the
      values of the first followed by those of the second. */
  lemma {:induction false} ValuesConcat(a: seq<string>, b: seq<string>, f: Field)
    ensures Values(a + b, f) == Values(a, f) + Values(b, f)
    decreases |b|
  {
    if b != [] {
      var b' := b[..|b| - 1];
      assert (a + b)[..|a + b| - 1] == a + b';
      assert (a + b)[|a + b| - 1] == b[|b| - 1];
      ValuesConcat(a, b', f);
    } else {
      assert a + b == a;
    }
  }

  /** A single line contributes its remainder after the marker of `f` when
      it starts with that marker and the marker does not occur again in the
      remainder; any other line contributes nothing to `f`. */
  lemma ValuesOfLine(line: string, f: Field)
    ensures !StartsWith(line, Marker(f)) ==> Values([line], f) == []
    ensures StartsWith(line, Marker(f)) && !Contains(line[|Marker(f)|..], Marker(f))
            ==> Values([line], f) == [line[|Marker(f)|..]]
  {
    ClassifyLineIff(line, f);
    assert [line][..0] == [];
    if StartsWith(line, Marker(f)) && !Contains(line[|Marker(f)|..], Marker(f)) {
      RemoveAllPrefix(line, Marker(f));
    }
  }

  /** One more line adds its own values at the end. */
  lemma ValuesStep(lines: seq<string>, i: nat, f: Field)
    requires i < |lines|
    ensures Values(lines[..i + 1], f) == Values(lines[..i], f) + LineValues(lines[i], f)
  {
    assert lines[..i + 1][..i] == lines[..i];
  }

  /** The parsing loop of readPackageList: the content is split into lines
      and each line is sorted into the package, version or description
      list, in input order. */
  method ReadPackageList(content: string) returns (packages: seq<string>, versions: seq<string>, descriptions: seq<string>)
    ensures packages == Values(Split(content, '\n'), Package)
    ensures versions == Values(Split(content, '\n'), Version)
    ensures descriptions == Values(Split(content, '\n'), Description)
  {
    var lines := Split(content, '\n');
    packages, versions, descriptions := [], [], [];
    var i := 0;
    while i < |lines|
      invariant 0 <= i <= |lines|
      invariant packages == Values(lines[..i], Package)
      invariant versions == Values(lines[..i], Version)
      invariant descriptions == Values(lines[..i], Description)
    {
      var line := lines[i];
      ValuesStep(lines, i, Package);
      ValuesStep(lines, i, Version);
      ValuesStep(lines, i, Description);
      if StartsWith(line, "Package: ") {
        packages := packages + [RemoveAll(line, "Package: ")];
      } else if StartsWith(line, "Version: ") {
        versions := versions + [RemoveAll(line, "Version: ")];
      } else if StartsWith(line, "Description: ") {
        descriptions := descriptions + [RemoveAll(line, "Description: ")];
      }
      i := i + 1;
    }
    assert lines[..|lines|] == lines;
  }

  /** The map after inserting the first |packages| entries in order: entry
      i pairs packages[i] with [versions[i], descriptions[i]], and a later
      insert of the same name overwrites an earlier one (QMap::insert). */
  function Index(packages: seq<string>, versions: seq<string>, descriptions: seq<string>): map<string, seq<string>>
    requires |versions| >= |packages| && |descriptions| >= |packages|
  {
    if packages == [] then map[]
    else
      var n := |packages| - 1;
      Index(packages[..n], versions, descriptions)[packages[n] := [versions[n], descriptions[n]]]
  }

  /** Every package name, and nothing else, is a key of the map. */
  lemma {:induction false} IndexKeys(packages: seq<string>, versions: seq<string>, descriptions: seq<string>)
    requires |versions| >= |packages| && |descriptions| >= |packages|
    ensures Index(packages, versions, descriptions).Keys == set p | p in packages
  {
    if packages != [] {
      var n := |packages| - 1;
      IndexKeys(packages[..n], versions, descriptions);
      assert packages == packages[..n] + [packages[n]];
      assert (set p | p in packages) == (set p | p in packages[..n]) + {packages[n]};
    }
  }

  /** A name maps to the version and description at its last position. */
  lemma {:induction false} IndexLast(packages: seq<string>, versions: seq<string>, descriptions: seq<string>, i: nat)
    requires |versions| >= |packages| && |descriptions| >= |packages|
    requires i < |packages| && packages[i] !in packages[i + 1..]
    ensures packages[i] in Index(packages, versions, descriptions)
    ensures Index(packages, versions, descriptions)[packages[i]] == [versions[i], descriptions[i]]
  {
    var n := |packages| - 1;
    if i < n {
      var init := packages[..n];
      assert packages[i + 1..] == init[i + 1..] + [packages[n]];
      assert packages[n] != packages[i];
      IndexLast(init, versions, descriptions, i);
    }
  }

  /** The second loop of readPackageList: insert the entries in order.
      QList::at demands the version and description lists be at least as
      long as the package list. */
  method BuildIndex(packages: seq<string>, versions: seq<string>, descriptions: seq<string>)
    returns (index: map<string, seq<string>>)
    requires |versions| >= |packages| && |descriptions| >= |packages|
    ensures index == Index(packages, versions, descriptions)
    ensures index.Keys == set p | p in packages
  {
    index := map[];
    var n := 0;
    while n < |packages|
      invariant 0 <= n <= |packages|
      invariant index == Index(packages[..n], versions, descriptions)
    {
      assert packages[..n + 1][..n] == packages[..n];
      index := index[packages[n] := [versions[n], descriptions[n]]];
      n := n + 1;
    }
    assert packages[..n] == packages;
    IndexKeys(packages, versions, descriptions);
  }
}
