/** The catalog of popular applications (m_popular_apps) and the check-box
    tree built from it: how processFile builds a row, how installBatch,
    installPopularApp and installPopularApps find install names in the
    catalog, and how the selection in the tree is read. */
module Catalog {
  import opened Strings

  /** One entry of m_popular_apps, fields in the order of the Popular index
      enum: category, name, description, install names, uninstall names,
      group. */
  datatype Row = Row(category: string, name: string, description: string,
                     installNames: string, uninstallNames: string, group: string)

  /** One item of treePopularApps as the core reads it: the text of the
      package-name column, whether its check box is checked, and whether it
      is grayed out as installed. Group and category items are items that are
      never checked. */
  datatype TreeItem = TreeItem(name: string, checked: bool, gray: bool)

  /** A sync database as processFile queries it: package name to description. */
  type SyncDb = map<string, string>

  /** The description of `name` in the first sync database that has it, or
      "" when none has it. */
  function FirstDescription(dbs: seq<SyncDb>, name: string): (d: string)
    ensures (forall k :: 0 <= k < |dbs| ==> name !in dbs[k]) ==> d == ""
    ensures forall k :: 0 <= k < |dbs| && name in dbs[k] && (forall j :: 0 <= j < k ==> name !in dbs[j])
              ==> d == dbs[k][name]
  {
    if dbs == [] then ""
    else if name in dbs[0] then dbs[0][name]
    else
      var d := FirstDescription(dbs[1..], name);
      assert forall k :: 1 <= k < |dbs| ==> dbs[k] == dbs[1..][k - 1];
      d
  }

  /** The lookup loop of processFile: walk the sync databases and stop at the
      first one that has the package. */
  method LookupDescription(dbs: seq<SyncDb>, name: string) returns (description: string)
    ensures description == FirstDescription(dbs, name)
  {
    description := "";
    var i := 0;
    while i < |dbs|
      invariant 0 <= i <= |dbs|
      invariant FirstDescription(dbs, name) == FirstDescription(dbs[i..], name)
    {
      if name in dbs[i] {
        description := dbs[i][name];
        return;
      }
      assert dbs[i..][1..] == dbs[i + 1..];
      i := i + 1;
    }
  }

  /** The install-names field of a row: the first name, a space, then the
      other names as utils::make_multiline_range joins them with " ". */
  function InstallNamesOf(names: seq<string>): string
    requires names != []
  {
    names[0] + " " + Terminated(names[1..], ' ')
  }

  /** The row processFile appends for a non-empty name list. */
  function MakeRow(group: string, category: string, names: seq<string>, description: string): Row
    requires names != []
  {
    Row(category, names[0], description, InstallNamesOf(names), InstallNamesOf(names), group)
  }

  /** The install names of a row keep the whole name list: splitting them on
      spaces gives back the names (they were split on spaces when the
      catalog was read), followed by one empty piece for the trailing space. */
  lemma InstallNamesRoundTrip(names: seq<string>)
    requires names != []
    requires forall i :: 0 <= i < |names| ==> ' ' !in names[i]
    ensures Split(InstallNamesOf(names), ' ') == names + [""]
    ensures InstallNamesOf(names) != ""
  {
    assert InstallNamesOf(names) == Terminated(names, ' ');
    SplitTerminated(names, ' ');
  }

  /** The rows called `name`. */
  function MatchCount(name: string, rows: seq<Row>): (n: nat)
    ensures n == 0 <==> forall j :: 0 <= j < |rows| ==> rows[j].name != name
  {
    if rows == [] then 0
    else
      var rest := MatchCount(name, rows[..|rows| - 1]);
      assert forall j :: 0 <= j < |rows| - 1 ==> rows[j] == rows[..|rows| - 1][j];
      rest + (if rows[|rows| - 1].name == name then 1 else 0)
  }

  /** What installBatch appends for one requested name: the install names of
      every row called `name`, each followed by a space. */
  function MatchedInstallNames(name: string, rows: seq<Row>): string {
    if rows == [] then ""
    else
      var last := rows[|rows| - 1];
      MatchedInstallNames(name, rows[..|rows| - 1]) + (if last.name == name then last.installNames + " " else "")
  }

  /** install_names of installBatch after the whole name list. */
  function BatchInstallNames(nameList: seq<string>, rows: seq<Row>): string {
    if nameList == [] then ""
    else BatchInstallNames(nameList[..|nameList| - 1], rows) + MatchedInstallNames(nameList[|nameList| - 1], rows)
  }

  /** One name adds nothing exactly when no row carries it. */
  lemma {:induction false} MatchedInstallNamesEmpty(name: string, rows: seq<Row>)
    ensures MatchedInstallNames(name, rows) == "" <==> MatchCount(name, rows) == 0
  {
    if rows != [] {
      MatchedInstallNamesEmpty(name, rows[..|rows| - 1]);
      var last := rows[|rows| - 1];
      if last.name == name {
        assert |last.installNames + " "| > 0;
      }
    }
  }

  /** installBatch runs an installation exactly when some requested name
      has a row in the catalog. */
  lemma {:induction false} BatchInstallNamesEmpty(nameList: seq<string>, rows: seq<Row>)
    ensures BatchInstallNames(nameList, rows) == "" <==>
      forall i :: 0 <= i < |nameList| ==> MatchCount(nameList[i], rows) == 0
  {
    if nameList != [] {
      var init := nameList[..|nameList| - 1];
      BatchInstallNamesEmpty(init, rows);
      MatchedInstallNamesEmpty(nameList[|nameList| - 1], rows);
      assert forall i :: 0 <= i < |init| ==> init[i] == nameList[i];
    }
  }

  /** The gathering loops of installBatch: for each requested name, in
      order, and each catalog row of that name, append the row's install
      names and a space. */
  method CollectBatchNames(nameList: seq<string>, rows: seq<Row>) returns (installNames: string)
    ensures installNames == BatchInstallNames(nameList, rows)
  {
    installNames := "";
    var i := 0;
    while i < |nameList|
      invariant 0 <= i <= |nameList|
      invariant installNames == BatchInstallNames(nameList[..i], rows)
    {
      var name := nameList[i];
      var j := 0;
      while j < |rows|
        invariant 0 <= j <= |rows|
        invariant installNames == BatchInstallNames(nameList[..i], rows) + MatchedInstallNames(name, rows[..j])
      {
        if rows[j].name == name {
          installNames := installNames + rows[j].installNames + " ";
        }
        assert rows[..j + 1][..j] == rows[..j];
        j := j + 1;
      }
      assert rows[..|rows|] == rows;
      assert nameList[..i + 1][..i] == nameList[..i];
      i := i + 1;
    }
    assert nameList[..|nameList|] == nameList;
  }

  /** The install names of the last row called `name`, or "" when there is
      none. */
  function LastInstallNames(rows: seq<Row>, name: string): string {
    if rows == [] then ""
    else if rows[|rows| - 1].name == name then rows[|rows| - 1].installNames
    else LastInstallNames(rows[..|rows| - 1], name)
  }

  /** When the catalog has no row called `name`, installPopularApp finds no
      install names. */
  lemma {:induction false} LastInstallNamesAbsent(rows: seq<Row>, name: string)
    requires forall j :: 0 <= j < |rows| ==> rows[j].name != name
    ensures LastInstallNames(rows, name) == ""
  {
    if rows != [] {
      var init := rows[..|rows| - 1];
      assert forall j :: 0 <= j < |init| ==> init[j] == rows[j];
      LastInstallNamesAbsent(init, name);
    }
  }

  /** Otherwise it finds the install names of the last row called `name`. */
  lemma {:induction false} LastInstallNamesLast(rows: seq<Row>, name: string, j: nat)
    requires j < |rows| && rows[j].name == name
    requires forall k :: j < k < |rows| ==> rows[k].name != name
    ensures LastInstallNames(rows, name) == rows[j].installNames
  {
    if j < |rows| - 1 {
      var init := rows[..|rows| - 1];
      assert rows[|rows| - 1].name != name;
      assert forall k :: j < k < |init| ==> init[k] == rows[k];
      LastInstallNamesLast(init, name, j);
    }
  }

  /** The loop of installPopularApp: every row called `name` overwrites the
      install names, so the last one wins. */
  method FindInstallNames(rows: seq<Row>, name: string) returns (installNames: string)
    ensures installNames == LastInstallNames(rows, name)
  {
    installNames := "";
    var j := 0;
    while j < |rows|
      invariant 0 <= j <= |rows|
      invariant installNames == LastInstallNames(rows[..j], name)
    {
      assert rows[..j + 1][..j] == rows[..j];
      if rows[j].name == name {
        installNames := rows[j].installNames;
      }
      j := j + 1;
    }
    assert rows[..|rows|] == rows;
  }

  /** The loop of on_treePopularApps_itemChanged: whether some item is
      checked, and whether every checked item is grayed out as installed. */
  method ScanSelection(tree: seq<TreeItem>) returns (checked: bool, installed: bool)
    ensures checked <==> exists i :: 0 <= i < |tree| && tree[i].checked
    ensures installed <==> forall i :: 0 <= i < |tree| && tree[i].checked ==> tree[i].gray
  {
    checked, installed := false, true;
    var i := 0;
    while i < |tree|
      invariant 0 <= i <= |tree|
      invariant checked <==> exists k :: 0 <= k < i && tree[k].checked
      invariant installed <==> forall k :: 0 <= k < i && tree[k].checked ==> tree[k].gray
    {
      if tree[i].checked {
        checked := true;
        if !tree[i].gray {
          installed := false;
        }
      }
      i := i + 1;
    }
  }

  /** The names one item puts in the batch: a checked item its name once
      per catalog row of that name, an unchecked one nothing. */
  function ItemBatchNames(item: TreeItem, rows: seq<Row>): seq<string> {
    if item.checked then seq(MatchCount(item.name, rows), _ => item.name) else []
  }

  /** The names the selection pass of installPopularApps puts in the batch,
      item by item in tree order. */
  function SelectedNames(tree: seq<TreeItem>, rows: seq<Row>): seq<string> {
    if tree == [] then []
    else SelectedNames(tree[..|tree| - 1], rows) + ItemBatchNames(tree[|tree| - 1], rows)
  }

  /** An item after the selection pass: unchecked when it was checked and
      the catalog has a row of its name. */
  function AfterSelection(item: TreeItem, rows: seq<Row>): (r: TreeItem)
    ensures r.name == item.name && r.gray == item.gray
    ensures r.checked <==> item.checked && MatchCount(item.name, rows) == 0
  {
    if item.checked && MatchCount(item.name, rows) > 0 then item.(checked := false) else item
  }

  /** The inner loop of the selection pass for one checked item: each
      catalog row of its name adds the name to the batch and unchecks the
      item. */
  method SelectItem(item: TreeItem, rows: seq<Row>) returns (names: seq<string>, after: TreeItem)
    requires item.checked
    ensures names == ItemBatchNames(item, rows)
    ensures after == AfterSelection(item, rows)
  {
    names, after := [], item;
    var j := 0;
    while j < |rows|
      invariant 0 <= j <= |rows|
      invariant names == seq(MatchCount(item.name, rows[..j]), _ => item.name)
      invariant after == AfterSelection(item, rows[..j])
    {
      assert rows[..j + 1][..j] == rows[..j];
      if rows[j].name == item.name {
        names := names + [item.name];
        after := after.(checked := false);
      }
      j := j + 1;
    }
    assert rows[..|rows|] == rows;
  }

  /** One more item adds its own batch names at the end. */
  lemma SelectedNamesStep(tree: seq<TreeItem>, rows: seq<Row>, i: nat)
    requires i < |tree|
    ensures SelectedNames(tree[..i + 1], rows) == SelectedNames(tree[..i], rows) + ItemBatchNames(tree[i], rows)
  {
    assert tree[..i + 1][..i] == tree[..i];
  }

  /** The batch holds exactly the names of the checked items that have a
      catalog row. */
  lemma {:induction false} SelectedNamesMembers(tree: seq<TreeItem>, rows: seq<Row>, x: string)
    ensures x in SelectedNames(tree, rows) <==>
      exists i :: 0 <= i < |tree| && tree[i].checked && tree[i].name == x && MatchCount(x, rows) > 0
  {
    if tree != [] {
      var init := tree[..|tree| - 1];
      SelectedNamesMembers(init, rows, x);
      assert forall i :: 0 <= i < |init| ==> init[i] == tree[i];
      var last := tree[|tree| - 1];
      if last.checked && last.name == x && MatchCount(x, rows) > 0 {
        assert ItemBatchNames(last, rows)[0] == x;
      }
    }
  }

  /** The whole tree after the selection pass. */
  function SelectionPass(tree: seq<TreeItem>, rows: seq<Row>): (r: seq<TreeItem>)
    ensures |r| == |tree|
    ensures forall i :: 0 <= i < |tree| ==> r[i] == AfterSelection(tree[i], rows)
  {
    seq(|tree|, i requires 0 <= i < |tree| => AfterSelection(tree[i], rows))
  }

  /** After the selection pass no checked item has a catalog row, so the
      second loop of installPopularApps finds nothing to install. */
  lemma NothingLeftAfterSelection(tree: seq<TreeItem>, rows: seq<Row>)
    ensures forall i :: 0 <= i < |tree| && SelectionPass(tree, rows)[i].checked
              ==> LastInstallNames(rows, tree[i].name) == ""
  {
    forall i | 0 <= i < |tree| && SelectionPass(tree, rows)[i].checked
      ensures LastInstallNames(rows, tree[i].name) == ""
    {
      LastInstallNamesAbsent(rows, tree[i].name);
    }
  }
}
