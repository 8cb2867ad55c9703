# Package actions of the xero-piai main window

The package installer's main window (`MainWindow` in `src/mainwindow.cpp`)
lets the user tick applications in a catalog of popular applications. It
then installs or removes them through pacman. This project models the logic behind those actions:

- **Names** (`names.dfy`): which names count as filtered: "lib" packages
  other than LibreOffice, and -dev, -dbg, -dbgsym and -devel packages
  (`isFilteredName`; no code in `src/mainwindow.cpp` calls it), and the two "are all of these installed" checks
  (`checkInstalled` on a list and on newline-separated text), and whether
  every name of a list is upgradable among the top-level rows of `m_tree`
  (`checkUpgradable`).
- **PackageList** (`package_list.dfy`): the parser of a package index in
  the `Package: / Version: / Description:` format. It produces three lists
  and a map from package name to version and description
  (`readPackageList`).
- **Catalog** (`catalog.dfy`):
  - how a catalog row is built from a name list (`processFile`);
  - how install names are gathered from the catalog for a batch or for one
    application;
  - how the check boxes of the popular-applications tree are read.
- **Transaction** (`transaction.dfy`): the confirmation protocol of
  `confirmActions` as a function of its outside answers, and the exact
  pacman command line that `install` and `uninstall` hand to the runner.
  It also proves that the action, the form and the names can be read back
  from a command line.
- **Window** (`window.dfy`): the class `MainWindow` with the fields these
  operations read or update:
  - the catalog, the tree, the change list and the installed packages;
  - the state of the Install and Uninstall buttons;
  - whether the pacman database lock is held;
  - whether the sources were refreshed;
  - a log of the dialogs shown and of the command lines run.

  Each method is proved against the functions above.
- **Strings** (`strings.dfy`): the QString and QList operations the code
  relies on: `startsWith`, `endsWith`, `split` (which keeps empty parts),
  `trimmed`, `remove` and `removeOne`.

The libalpm calls, the user's dialog answers and the command runner are not
visible code. Every such outcome is an input:

- an `Oracle` holds four answers: the trial transaction's return value, the
  conflict-dialog answer, the final-dialog answer and the runner's verdict;
- sync databases are maps from package name to description;
- the top-level rows of `m_tree` that `checkUpgradable` searches, each read
  in its `TreeCol::Name` and `TreeCol::Status` columns;
- the outcome of `pacman -Sy` is a boolean.

Two facts of the code matter for what is proved:

- The "Package: " line parser uses `QString::remove`, which deletes every
  occurrence of the marker, not only the leading one. `Strings.RemoveAll`
  models that. The plain "remainder after the prefix" holds when the marker
  does not occur again (`PackageList.ValuesOfLine`).
- In `installPopularApps` the selection pass unchecks every checked item
  that has a catalog row. The second loop therefore only sees items without
  a row, and it never runs a command (`Catalog.NothingLeftAfterSelection`,
  `Window.MainWindow.InstallPopularApps`).

## Model

| member | source | states |
|---|---|---|
| Strings.StartsWithIff | src/mainwindow.cpp:763-767 | a prefix test holds exactly when the name is the prefix followed by some rest |
| Strings.EndsWithIff | src/mainwindow.cpp:763-767 | a suffix test holds exactly when the name is some stem followed by the suffix |
| Strings.Split | src/mainwindow.cpp:835 | splitting always yields at least one part and no part contains the separator |
| Strings.JoinSplit | src/mainwindow.cpp:835 | splitting loses nothing: joining the parts with the separator gives the text back |
| Strings.SplitNoSeparator | src/mainwindow.cpp:909 | text without a newline splits into itself alone |
| Strings.SplitTerminated | src/mainwindow.cpp:393 | a separator-terminated list of separator-free names splits back into those names plus one empty part |
| Strings.TrimStart | src/mainwindow.cpp:909 | removes exactly the leading white space: the result is a suffix, all that was dropped is white space, and the result does not start with white space |
| Strings.TrimEnd | src/mainwindow.cpp:909 | removes exactly the trailing white space: the result is a prefix, all that was dropped is white space, and the result does not end with white space |
| Strings.Trimmed | src/mainwindow.cpp:909 | the trimmed name is a piece of the input with only white space around it and none at either end |
| Strings.TrimmedUnchanged | src/mainwindow.cpp:909 | a name without white space at either end is its own trimmed form |
| Strings.TrimmedIdempotent | src/mainwindow.cpp:909 | trimming twice equals trimming once |
| Strings.RemoveAll | src/mainwindow.cpp:838-843 | removing a marker never lengthens a line |
| Strings.RemoveAllAbsent | src/mainwindow.cpp:838-843 | removing a marker that does not occur leaves the line unchanged |
| Strings.RemoveAllPrefix | src/mainwindow.cpp:838-843 | a line that starts with the marker, and has no other occurrence of it, becomes the remainder after the marker |
| Strings.RemoveOne | src/mainwindow.cpp:1307 | removeOne leaves a list without the name unchanged |
| Strings.RemoveOneCount | src/mainwindow.cpp:1307 | removeOne takes exactly one copy of the name out of the multiset of entries, when there is one |
| Strings.RemoveOneFirst | src/mainwindow.cpp:1307 | only the first occurrence goes: the entries before and after it stay, in order |
| Names.IsFilteredNameIff | src/mainwindow.cpp:763-767 | a name is filtered exactly when it is "lib" plus a rest that does not make it "libreoffice…", or a stem plus one of "-dev", "-dbg", "-dbgsym", "-devel" |
| Names.AllInstalledIff | src/mainwindow.cpp:918 | the all_of fold holds exactly when every name is in the installed list |
| Names.CheckInstalledListIff | src/mainwindow.cpp:913-919 | the list overload is false for an empty list, and otherwise true exactly when every name is installed |
| Names.CheckInstalledTextIff | src/mainwindow.cpp:905-910 | the text overload is false for empty text, and otherwise true exactly when every newline-separated piece, trimmed, is installed |
| Names.CheckInstalledTextAsList | src/mainwindow.cpp:905-919 | on non-empty text, the text overload equals the list overload applied to the trimmed lines |
| Names.CheckInstalledSingleName | src/mainwindow.cpp:905-910 | for one name without a newline and without edge white space, the text overload is plain membership of a non-empty name |
| Names.FirstIsUpgradableAbsent | src/mainwindow.cpp:927-929 | a name that no top-level row of `m_tree` carries is not upgradable |
| Names.FirstIsUpgradableFirst | src/mainwindow.cpp:927-929 | otherwise only the first row carrying the name decides: the name is upgradable exactly when that row's status is "upgradable" |
| Names.CheckUpgradableMissing | src/mainwindow.cpp:922-931 | a list holding a name that no top-level row of `m_tree` carries is not upgradable |
| PackageList.ClassifyLineIff | src/mainwindow.cpp:838-843 | a line feeds a field exactly when it starts with that field's marker, whatever the order of the else-if chain; its value is the line with the marker removed |
| PackageList.ValuesConcat | src/mainwindow.cpp:837-844 | the lists are filled line by line: the values of two blocks of lines are those of the first followed by those of the second |
| PackageList.ValuesOfLine | src/mainwindow.cpp:838-843 | a line without a field's marker adds nothing to that field; one with it adds the remainder after the marker when the marker does not recur |
| PackageList.ReadPackageList | src/mainwindow.cpp:835-844 | the package, version and description lists are those the lines of the content give, in input order |
| PackageList.IndexKeys | src/mainwindow.cpp:846-847 | the map's keys are exactly the package names |
| PackageList.IndexLast | src/mainwindow.cpp:846-847 | each package name maps to the version and description at its last position, since a later insert overwrites |
| PackageList.BuildIndex | src/mainwindow.cpp:846-847 | the insertion loop builds the map of the package entries in order, whose keys are exactly the package names |
| Catalog.FirstDescription | src/mainwindow.cpp:383-391 | the description comes from the first sync database that has the package, and is "" when none has it |
| Catalog.LookupDescription | src/mainwindow.cpp:383-391 | the lookup loop finds the description of the first sync database that has the package |
| Catalog.InstallNamesRoundTrip | src/mainwindow.cpp:393-394 | the install names of a row are non-empty, and splitting them on spaces gives back the name list plus one empty trailing piece |
| Catalog.MatchCount | src/mainwindow.cpp:674-678 | no row matches exactly when no catalog row has the name |
| Catalog.MatchedInstallNamesEmpty | src/mainwindow.cpp:674-678 | one requested name adds nothing exactly when no catalog row has that name |
| Catalog.BatchInstallNamesEmpty | src/mainwindow.cpp:673-681 | a batch runs an installation exactly when some requested name has a catalog row |
| Catalog.CollectBatchNames | src/mainwindow.cpp:673-679 | the gathering loops append, for each requested name in order, the install names and a space of every matching row |
| Catalog.LastInstallNamesAbsent | src/mainwindow.cpp:694-701 | when no catalog row has the name, the install names found are "" |
| Catalog.LastInstallNamesLast | src/mainwindow.cpp:697-701 | otherwise they are the install names of the last row with the name |
| Catalog.FindInstallNames | src/mainwindow.cpp:697-701 | the overwriting loop ends with the install names of the last matching row, or "" when none matches |
| Catalog.ScanSelection | src/mainwindow.cpp:1373-1379 | checked holds exactly when some item is checked; installed holds exactly when every checked item is gray |
| Catalog.AfterSelection | src/mainwindow.cpp:725-733 | after the pass an item is still checked exactly when it was checked and the catalog has no row of its name; its name and color are unchanged |
| Catalog.SelectItem | src/mainwindow.cpp:727-732 | the inner loop adds the item's name once per matching row, and unchecks the item when there is one |
| Catalog.SelectedNamesMembers | src/mainwindow.cpp:724-734 | a name is in the batch exactly when some checked item carries it and the catalog has a row of it |
| Catalog.NothingLeftAfterSelection | src/mainwindow.cpp:740-745 | after the selection pass, every item still checked has no install names, so the rest loop installs nothing |
| Transaction.Confirm | src/mainwindow.cpp:555-639 | "remove" is always ok and never shows the conflict dialog; "install" is ok exactly when the trial transaction returns 0; a rejected conflict dialog returns false with the lock released and no final dialog; otherwise the lock is held and the result is the final dialog's Ok |
| Transaction.ParseCommandInverse | src/mainwindow.cpp:656-660 | the action, the --noconfirm or "yes \|" form and the exact names can be read back from every command line, the -S forms here and the -R forms at lines 180-184 |
| Transaction.CommandOfParse | src/mainwindow.cpp:180-184 | every command line that reads back is the command of what it reads back to |
| Transaction.CommandInjective | src/mainwindow.cpp:656-660 | two requests give the same command line only when action, form and names are the same, over the -S forms here and the -R forms at lines 180-184 |
| Window.MainWindow.ProcessFile | src/mainwindow.cpp:374-399 | an empty name list changes nothing; otherwise one row is appended, with the first sync description, the install names and uninstall names built from the list, and the group |
| Window.MainWindow.BuildChangeList | src/mainwindow.cpp:1293-1317 | a checked name is appended, an unchecked one loses its first occurrence (the multiset gains or loses one copy); Uninstall is on exactly when the list is non-empty and all installed; the label is "Upgrade" exactly when checkUpgradable holds for the top-level rows of `m_tree`; an empty list disables both buttons; otherwise Install stays as it was unless the item was checked |
| Window.MainWindow.OnPopularItemChanged | src/mainwindow.cpp:1367-1386 | Install is on exactly when some item is checked; Uninstall is on, and the label reads "Reinstall", exactly when moreover every checked item is gray |
| Window.MainWindow.ConfirmActions | src/mainwindow.cpp:555-639 | the result, is_ok, the final lock state and the dialogs shown are those Confirm gives |
| Window.MainWindow.Execute | src/mainwindow.cpp:642-664 | a declined confirmation runs nothing and returns true; an accepted one runs exactly one command for the names in the form is_ok selects, returns the runner's verdict and leaves the lock held |
| Window.MainWindow.Install | src/mainwindow.cpp:642-664 | an accepted install runs "pacman -S --noconfirm" when the trial transaction returned 0, else "yes \| pacman -S", returns the runner's verdict and holds the lock; a declined one runs nothing and returns true |
| Window.MainWindow.Uninstall | src/mainwindow.cpp:165-188 | the conflict dialog never shows; after an Ok the command is "pacman -R --noconfirm" with the names verbatim; after a Cancel nothing runs and the result is true; the lock always ends held |
| Window.MainWindow.Update | src/mainwindow.cpp:191-209 | "pacman -Sy" runs; the lock ends held; the sources are marked refreshed on success; the error dialog shows on failure |
| Window.MainWindow.InstallBatch | src/mainwindow.cpp:667-688 | one install of all matching rows' install names, or nothing and true when no requested name has a row; the lock always ends held |
| Window.MainWindow.InstallPopularApp | src/mainwindow.cpp:691-711 | an install of the last matching row's install names, or nothing and true when there is none; the lock always ends held |
| Window.MainWindow.SelectForBatch | src/mainwindow.cpp:724-734 | the batch is the selected names of the tree, and the tree becomes its selection pass |
| Window.MainWindow.InstallRest | src/mainwindow.cpp:740-745 | when no item still checked has install names, the loop runs no command, shows no dialog, returns true and leaves the lock held |
| Window.MainWindow.InstallPopularApps | src/mainwindow.cpp:714-748 | the command log gains "pacman -Sy" when the sources were never refreshed, then at most the one batch install; the dialog log gains the update error dialog when that refresh failed, then the batch install's confirmation dialogs; the result is false only when the batch install ran and failed; the lock ends held |

## Left out

- Widgets, dialogs and layout are left out. This covers the text and detail of the dialogs, tab switching, the progress dialog, cursors, `setCurrentItem` in `on_treePopularApps_itemChanged` and `displayOutput`. Dialogs are recorded only by kind, in order.
- `loadTxtFiles` is left out: it fetches over HTTP and parses YAML with foreign libraries. Its role is only to produce the `(group, category, names)` triples that `processFile` receives as parameters.
- The libalpm calls are left out: `add_targets_to_install`, `add_targets_to_remove`, `display_targets`, `sync_trans`, `refresh_alpm` and `alpm_get_syncdbs`. Their outcomes are inputs: the trial transaction's return value, and the sync databases as maps.
- The splitting of `names` in `confirmActions` into a target list is left out. It uses `utils::make_multiline`, it only feeds the libalpm calls, and `utils.hpp` is not part of this model.
- `Catalog.InstallNamesOf`: `utils::make_multiline_range` is taken to follow every name with the delimiter. `utils.hpp` is not part of this model.
- The `Cmd` process runner, `listInstalled`, `getVersion` and `listInstalledVersions` are left out: they are external processes. A run's success is an input.
- `convert` and `addSizes` are left out: floating-point arithmetic and number formatting.
- `QSettings` persistence and `displayWarning` are left out. The warning is never shown.
- `installSelected` is left out: `m_tree` is always the popular-applications tree, so nothing calls it.
- The `on_pushInstall_clicked` and `on_pushUninstall_clicked` glue is left out.
- PackageList.ReadPackageList: not modelled are the early return when the repository list is already filled and no download is forced, the file read, and the map being discarded at the end.
  - Its QFile is never given a name, so the content it reads is empty.
  - The model takes the content as a parameter and returns the lists; `PackageList.BuildIndex` returns the map.
- PackageList.BuildIndex: requires the version and description lists to be at least as long as the package list. Content with more "Package: " lines than "Version: " or "Description: " lines makes `QList::at` go out of range in the source; the model does not cover that case.
- Window.MainWindow.BuildChangeList: the rows `checkUpgradable` searches are the top-level items of `m_tree` (always `treePopularApps`), read in their `TreeCol::Name` and `TreeCol::Status` columns. No code of `src/mainwindow.cpp` fills those columns, and nothing in it calls `buildChangeList`, so the model takes the rows, and the item's name and check state, as inputs.
- Catalog.TreeItem: one `name` field stands for both reads of an item's name in `installPopularApps`, `text(2)` in the selection pass and `text(PopCol::Name)` in the loop over the rest. This takes `PopCol::Name` to be column 2, as the header labels and `sortItems(2, …)` indicate; `mainwindow.hpp` is not part of this model. `Catalog.NothingLeftAfterSelection` and `Window.MainWindow.InstallRest` rest on it.
- Window.MainWindow.SelectForBatch: unchecking an item fires the tree's itemChanged signal in Qt, which re-runs `on_treePopularApps_itemChanged`. This re-entry is not modelled; the button state after the pass is what `Window.MainWindow.OnPopularItemChanged` gives for the final tree.
- `Strings.IsSpace` covers the white space of the basic multilingual plane only; QString works on UTF-16 code units, so no character outside it is white space.
