/** Predicates on package names: the development-package filter and the
    "all installed" checks used to gray out catalog rows and to enable the
    Uninstall button (MainWindow::isFilteredName, both overloads of
    MainWindow::checkInstalled, MainWindow::checkUpgradable). */
module Names {
  import opened Strings

  /** The suffixes that mark development and debug packages. */
  const DevSuffixes: seq<string> := ["-dev", "-dbg", "-dbgsym", "-devel"]

  /** A name that counts as filtered: a "lib" package other than
      LibreOffice, or a development or debug package. No code of the main
      window calls isFilteredName. */
  predicate IsFilteredName(name: string) {
    || (StartsWith(name, "lib") && !StartsWith(name, "libreoffice"))
    || EndsWith(name, "-dev")
    || EndsWith(name, "-dbg")
    || EndsWith(name, "-dbgsym")
    || EndsWith(name, "-devel")
  }

  /** The filter in terms of how a name is built: "lib" followed by anything
      that does not make it "libreoffice...", or any stem followed by one of
      the development suffixes. */
  lemma IsFilteredNameIff(name: string)
    ensures IsFilteredName(name) <==>
      || ((exists rest :: name == "lib" + rest) && !(exists rest :: name == "libreoffice" + rest))
      || (exists stem, i :: 0 <= i < |DevSuffixes| && name == stem + DevSuffixes[i])
  {
    StartsWithIff(name, "lib");
    StartsWithIff(name, "libreoffice");
    var bySuffix := EndsWith(name, "-dev") || EndsWith(name, "-dbg") || EndsWith(name, "-dbgsym") || EndsWith(name, "-devel");
    forall i | 0 <= i < |DevSuffixes|
      ensures EndsWith(name, DevSuffixes[i]) <==> exists stem :: name == stem + DevSuffixes[i]
    {
      EndsWithIff(name, DevSuffixes[i]);
    }
    assert bySuffix <==> exists i :: 0 <= i < |DevSuffixes| && EndsWith(name, DevSuffixes[i]) by {
      if bySuffix {
        if EndsWith(name, "-dev") { assert EndsWith(name, DevSuffixes[0]); }
        else if EndsWith(name, "-dbg") { assert EndsWith(name, DevSuffixes[1]); }
        else if EndsWith(name, "-dbgsym") { assert EndsWith(name, DevSuffixes[2]); }
        else { assert EndsWith(name, DevSuffixes[3]); }
      }
    }
  }

  /** The ranges::all_of fold over m_installed_packages. */
  predicate AllInstalled(names: seq<string>, installed: seq<string>) {
    names == [] || (names[0] in installed && AllInstalled(names[1..], installed))
  }

  /** The fold holds exactly when every name is installed. */
  lemma {:induction false} AllInstalledIff(names: seq<string>, installed: seq<string>)
    ensures AllInstalled(names, installed) <==> forall i :: 0 <= i < |names| ==> names[i] in installed
  {
    if names != [] {
      AllInstalledIff(names[1..], installed);
      assert forall i :: 1 <= i < |names| ==> names[i] == names[1..][i - 1];
    }
  }

  /** checkInstalled(const QStringList&): false for an empty list, otherwise
      whether every name of the list is installed. */
  predicate CheckInstalledList(nameList: seq<string>, installed: seq<string>) {
    nameList != [] && AllInstalled(nameList, installed)
  }

  /** Every line of `names`, trimmed. */
  function TrimmedLines(names: string): (lines: seq<string>)
    ensures |lines| == |Split(names, '\n')|
    ensures forall i :: 0 <= i < |lines| ==> lines[i] == Trimmed(Split(names, '\n')[i])
  {
    var parts := Split(names, '\n');
    seq(|parts|, i requires 0 <= i < |parts| => Trimmed(parts[i]))
  }

  /** checkInstalled(const QString&): false for an empty string, otherwise
      whether every line, trimmed, is an installed package. */
  predicate CheckInstalledText(names: string, installed: seq<string>) {
    names != "" && AllInstalled(TrimmedLines(names), installed)
  }

  /** The list overload: true iff the list is non-empty and all of it is
      installed. */
  lemma CheckInstalledListIff(nameList: seq<string>, installed: seq<string>)
    ensures CheckInstalledList(nameList, installed) <==>
      nameList != [] && forall i :: 0 <= i < |nameList| ==> nameList[i] in installed
  {
    AllInstalledIff(nameList, installed);
  }

  /** The string overload: true iff the string is non-empty and each of its
      lines, trimmed, is installed. */
  lemma CheckInstalledTextIff(names: string, installed: seq<string>)
    ensures CheckInstalledText(names, installed) <==>
      names != "" && forall line :: line in Split(names, '\n') ==> Trimmed(line) in installed
  {
    var lines := TrimmedLines(names);
    var parts := Split(names, '\n');
    AllInstalledIff(lines, installed);
    if CheckInstalledText(names, installed) {
      forall line | line in parts ensures Trimmed(line) in installed {
        var i :| 0 <= i < |parts| && parts[i] == line;
        assert lines[i] in installed;
      }
    }
    if names != "" && forall line :: line in parts ==> Trimmed(line) in installed {
      forall i | 0 <= i < |lines| ensures lines[i] in installed {
        assert parts[i] in parts;
      }
    }
  }

  /** The string overload is the list overload applied to the trimmed lines. */
  lemma CheckInstalledTextAsList(names: string, installed: seq<string>)
    requires names != ""
    ensures CheckInstalledText(names, installed) == CheckInstalledList(TrimmedLines(names), installed)
  {
  }

  /** For a single package name (one line, no white space at either end),
      as displayPopularApps passes, the string overload is plain membership. */
  lemma CheckInstalledSingleName(name: string, installed: seq<string>)
    requires '\n' !in name
    requires name != [] ==> !IsSpace(name[0]) && !IsSpace(name[|name| - 1])
    ensures CheckInstalledText(name, installed) <==> name != "" && name in installed
  {
    SplitNoSeparator(name, '\n');
    TrimmedUnchanged(name);
    var lines := TrimmedLines(name);
    assert lines == [name] by {
      assert |lines| == 1 && lines[0] == Trimmed(name);
    }
    AllInstalledIff(lines, installed);
  }

  /** A top-level item of the current tree (m_tree) as checkUpgradable
      reads it: the text of its TreeCol::Name and TreeCol::Status columns. */
  datatype PackageRow = PackageRow(name: string, status: string)

  /** The status text checkUpgradable takes as upgradable. */
  const UpgradableStatus: string := "upgradable"

  /** The first row of the tree called `name` exists and is upgradable
      (findItems with an exact match, then the status of item_list.at(0)). */
  predicate FirstIsUpgradable(rows: seq<PackageRow>, name: string) {
    rows != [] && if rows[0].name == name then rows[0].status == UpgradableStatus else FirstIsUpgradable(rows[1..], name)
  }

  /** A name no row carries is not upgradable. */
  lemma {:induction false} FirstIsUpgradableAbsent(rows: seq<PackageRow>, name: string)
    requires forall j :: 0 <= j < |rows| ==> rows[j].name != name
    ensures !FirstIsUpgradable(rows, name)
  {
    if rows != [] {
      assert forall j :: 0 <= j < |rows| - 1 ==> rows[1..][j] == rows[j + 1];
      FirstIsUpgradableAbsent(rows[1..], name);
    }
  }

  /** Otherwise only the first row carrying the name decides: the name is
      upgradable exactly when that row's status is "upgradable". */
  lemma {:induction false} FirstIsUpgradableFirst(rows: seq<PackageRow>, name: string, j: nat)
    requires j < |rows| && rows[j].name == name
    requires forall k :: 0 <= k < j ==> rows[k].name != name
    ensures FirstIsUpgradable(rows, name) <==> rows[j].status == UpgradableStatus
  {
    if j > 0 {
      assert rows[0].name != name;
      assert forall k :: 0 <= k < j - 1 ==> rows[1..][k] == rows[k + 1];
      FirstIsUpgradableFirst(rows[1..], name, j - 1);
    }
  }

  /** checkUpgradable: false for an empty list, otherwise whether the first
      top-level row of m_tree carrying each name is upgradable. */
  predicate CheckUpgradable(nameList: seq<string>, rows: seq<PackageRow>) {
    nameList != [] && forall i :: 0 <= i < |nameList| ==> FirstIsUpgradable(rows, nameList[i])
  }

  /** A name that no top-level row carries makes the whole list not
      upgradable. */
  lemma CheckUpgradableMissing(nameList: seq<string>, rows: seq<PackageRow>, i: nat)
    requires i < |nameList| && forall j :: 0 <= j < |rows| ==> rows[j].name != nameList[i]
    ensures !CheckUpgradable(nameList, rows)
  {
    FirstIsUpgradableAbsent(rows, nameList[i]);
  }
}
