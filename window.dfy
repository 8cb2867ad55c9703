/** The main window of the package installer, reduced to the state its
    package actions read and change: the catalog of popular applications,
    the popular-applications tree, the change list, the state of the
    Install and Uninstall buttons, whether the pacman database lock is held,
    whether the sources were refreshed, and the logs of the dialogs shown
    and the command lines handed to the runner. */
module Window {
  import opened Strings
  import opened Names
  import opened Catalog
  import opened Transaction

  /** The command line of MainWindow::update. */
  const RefreshCommand: string := "pacman -Sy"

  class MainWindow {
    /** m_popular_apps */
    var popularApps: seq<Row>
    /** m_installed_packages */
    var installedPackages: seq<string>
    /** m_change_list */
    var changeList: seq<string>
    /** The items of treePopularApps, in iteration order. */
    var tree: seq<TreeItem>
    /** Whether m_lockfile is locked. */
    var held: bool
    /** m_updated_once */
    var updatedOnce: bool
    /** Whether pushInstall and pushUninstall are enabled, and the text of
        pushInstall. */
    var installEnabled: bool
    var uninstallEnabled: bool
    var installLabel: string
    /** The modal dialogs shown so far, in order. */
    var dialogs: seq<Dialog>
    /** The command lines handed to the runner so far, in order. */
    var commands: seq<string>

    /** processFile: a non-empty name list adds one catalog row built from
        it and the description found in the sync databases; an empty one
        changes nothing. */
    method ProcessFile(group: string, category: string, names: seq<string>, dbs: seq<SyncDb>)
      modifies this`popularApps
      ensures names == [] ==> popularApps == old(popularApps)
      ensures names != [] ==>
                popularApps == old(popularApps) + [MakeRow(group, category, names, FirstDescription(dbs, names[0]))]
    {
      if names == [] {
        return;
      }
      var description := LookupDescription(dbs, names[0]);
      popularApps := popularApps + [MakeRow(group, category, names, description)];
    }

    /** buildChangeList for the tree item named `name`, whose check box
        is `checked`: a checked name is appended to the change list, an
        unchecked one loses its first occurrence. Uninstall is enabled when
        everything in the list is installed, the Install button reads
        "Upgrade" when everything is upgradable among the top-level rows
        `treeRows` of m_tree, and both buttons are off when the list is
        empty. */
    method BuildChangeList(name: string, checked: bool, treeRows: seq<PackageRow>)
      modifies this`changeList, this`installEnabled, this`uninstallEnabled, this`installLabel
      ensures changeList == if checked then old(changeList) + [name] else RemoveOne(old(changeList), name)
      ensures multiset(changeList) == if checked then multiset(old(changeList)) + multiset{name}
                                      else multiset(old(changeList)) - multiset{name}
      ensures installEnabled == (changeList != [] && (checked || old(installEnabled)))
      ensures uninstallEnabled <==> changeList != [] && forall i :: 0 <= i < |changeList| ==> changeList[i] in installedPackages
      ensures installLabel == if CheckUpgradable(changeList, treeRows) then "Upgrade" else "Install"
    {
      if checked {
        installEnabled := true;
        changeList := changeList + [name];
      } else {
        changeList := RemoveOne(changeList, name);
      }
      uninstallEnabled := CheckInstalledList(changeList, installedPackages);
      installLabel := if CheckUpgradable(changeList, treeRows) then "Upgrade" else "Install";
      if changeList == [] {
        installEnabled := false;
        uninstallEnabled := false;
      }
      CheckInstalledListIff(changeList, installedPackages);
      RemoveOneCount(old(changeList), name);
    }

    /** on_treePopularApps_itemChanged: Install is enabled when some item is
        checked; Uninstall, and the label "Reinstall", when moreover every
        checked item is grayed out as installed. */
    method OnPopularItemChanged()
      modifies this`installEnabled, this`uninstallEnabled, this`installLabel
      ensures installEnabled <==> exists i :: 0 <= i < |tree| && tree[i].checked
      ensures uninstallEnabled <==>
                installEnabled && forall i :: 0 <= i < |tree| && tree[i].checked ==> tree[i].gray
      ensures installLabel == if uninstallEnabled then "Reinstall" else "Install"
    {
      var checked, installed := ScanSelection(tree);
      installEnabled := checked;
      uninstallEnabled := checked && installed;
      if checked && installed {
        installLabel := "Reinstall";
      } else {
        installLabel := "Install";
      }
    }

    /** confirmActions: releases the lock, runs the trial transaction (an
        oracle here) and the dialogs, and ends as Confirm describes. */
    method ConfirmActions(action: Action, o: Oracle) returns (accepted: bool, isOk: bool)
      modifies this`held, this`dialogs
      ensures accepted == Confirm(action, o).accepted && isOk == Confirm(action, o).isOk
      ensures held == Confirm(action, o).held
      ensures dialogs == old(dialogs) + Confirm(action, o).dialogs
    {
      isOk := false;  // the caller's `bool is_ok{}`
      held := false;
      if action == Remove {
        isOk := true;
      } else {
        held := false;
        isOk := o.syncResult == 0;
      }
      if !isOk {
        dialogs := dialogs + [ConflictDialog];
        if !o.conflictAccepted {
          accepted := false;
          return;
        }
      }
      held := true;
      dialogs := dialogs + [FinalDialog];
      accepted := o.finalOk;
    }

    /** The common body of install and uninstall: a declined confirmation
        returns true and runs nothing; an accepted one runs the command of
        the action in the form is_ok selects, takes the lock and returns the
        runner's verdict. */
    method Execute(action: Action, names: string, o: Oracle) returns (result: bool)
      modifies this`held, this`dialogs, this`commands
      ensures dialogs == old(dialogs) + Confirm(action, o).dialogs
      ensures Confirm(action, o).accepted ==>
                commands == old(commands) + [Command(action, Confirm(action, o).isOk, names)]
                && result == o.runOk && held
      ensures !Confirm(action, o).accepted ==>
                commands == old(commands) && result && held == Confirm(action, o).held
    {
      held := false;
      var accepted, isOk := ConfirmActions(action, o);
      if !accepted {
        result := true;
        return;
      }
      commands := commands + [Command(action, isOk, names)];
      result := o.runOk;
      held := true;
    }

    /** install: the pacman -S command for `names`. A run is only ever
        attempted after the final dialog was accepted, and it leaves the lock
        held. */
    method Install(names: string, o: Oracle) returns (result: bool)
      modifies this`held, this`dialogs, this`commands
      ensures dialogs == old(dialogs) + Confirm(Action.Install, o).dialogs
      ensures Confirm(Action.Install, o).accepted ==>
                commands == old(commands) + [Command(Action.Install, o.syncResult == 0, names)]
                && result == o.runOk && held
      ensures !Confirm(Action.Install, o).accepted ==>
                commands == old(commands) && result && held == Confirm(Action.Install, o).held
    {
      result := Execute(Action.Install, names, o);
    }

    /** uninstall: the pacman -R command for `names`, always in its
        --noconfirm form, after the final dialog only; whatever happens the
        lock ends held. */
    method Uninstall(names: string, o: Oracle) returns (result: bool)
      modifies this`held, this`dialogs, this`commands
      ensures held
      ensures dialogs == old(dialogs) + [FinalDialog]
      ensures o.finalOk ==> commands == old(commands) + [Command(Remove, true, names)] && result == o.runOk
      ensures !o.finalOk ==> commands == old(commands) && result
    {
      result := Execute(Remove, names, o);
    }

    /** update: runs "pacman -Sy" with the lock released, takes the lock
        back, and records the refresh on success or shows the error dialog
        on failure. */
    method Update(runOk: bool) returns (result: bool)
      modifies this`held, this`dialogs, this`commands, this`updatedOnce
      ensures result == runOk && held
      ensures commands == old(commands) + [RefreshCommand]
      ensures updatedOnce == (old(updatedOnce) || runOk)
      ensures dialogs == old(dialogs) + (if runOk then [] else [UpdateErrorDialog])
    {
      held := false;
      commands := commands + [RefreshCommand];
      if runOk {
        held := true;
        updatedOnce := true;
        return true;
      }
      held := true;
      dialogs := dialogs + [UpdateErrorDialog];
      return false;
    }

    /** installBatch: one installation of the install names of every catalog
        row of every requested name; nothing is run, and true is returned,
        when no requested name has a row. The lock ends held. */
    method InstallBatch(nameList: seq<string>, o: Oracle) returns (result: bool)
      modifies this`held, this`dialogs, this`commands
      ensures held
      ensures BatchInstallNames(nameList, popularApps) == "" ==>
                commands == old(commands) && dialogs == old(dialogs) && result
      ensures BatchInstallNames(nameList, popularApps) != "" ==>
                dialogs == old(dialogs) + Confirm(Action.Install, o).dialogs
                && (Confirm(Action.Install, o).accepted ==>
                      commands == old(commands) + [Command(Action.Install, o.syncResult == 0, BatchInstallNames(nameList, popularApps))]
                      && result == o.runOk)
                && (!Confirm(Action.Install, o).accepted ==> commands == old(commands) && result)
    {
      var installNames := CollectBatchNames(nameList, popularApps);
      result := true;
      if installNames != "" {
        var ok := Install(installNames, o);
        if !ok {
          result := false;
        }
      }
      held := true;
    }

    /** installPopularApp: installs the install names of the last catalog
        row called `name`; nothing is run, and true is returned, when the
        catalog has no such row. The lock ends held. */
    method InstallPopularApp(name: string, o: Oracle) returns (result: bool)
      modifies this`held, this`dialogs, this`commands
      ensures held
      ensures LastInstallNames(popularApps, name) == "" ==>
                commands == old(commands) && dialogs == old(dialogs) && result
      ensures LastInstallNames(popularApps, name) != "" ==>
                dialogs == old(dialogs) + Confirm(Action.Install, o).dialogs
                && (Confirm(Action.Install, o).accepted ==>
                      commands == old(commands) + [Command(Action.Install, o.syncResult == 0, LastInstallNames(popularApps, name))]
                      && result == o.runOk)
                && (!Confirm(Action.Install, o).accepted ==> commands == old(commands) && result)
    {
      result := true;
      var installNames := FindInstallNames(popularApps, name);
      if installNames != "" {
        result := Install(installNames, o);
      }
      held := true;
    }

    /** The selection pass of installPopularApps: every checked item with
        catalog rows contributes its name once per row and is unchecked. */
    method SelectForBatch() returns (batchNames: seq<string>)
      modifies this`tree
      ensures batchNames == SelectedNames(old(tree), popularApps)
      ensures tree == SelectionPass(old(tree), popularApps)
    {
      batchNames := [];
      var i := 0;
      while i < |tree|
        invariant 0 <= i <= |tree| == |old(tree)|
        invariant batchNames == SelectedNames(old(tree)[..i], popularApps)
        invariant forall k :: 0 <= k < i ==> tree[k] == AfterSelection(old(tree)[k], popularApps)
        invariant forall k :: i <= k < |tree| ==> tree[k] == old(tree)[k]
      {
        SelectedNamesStep(old(tree), popularApps, i);
        var item := tree[i];
        if item.checked {
          var names, after := SelectItem(item, popularApps);
          batchNames := batchNames + names;
          tree := tree[i := after];
        } else {
          assert AfterSelection(item, popularApps) == item && ItemBatchNames(item, popularApps) == [];
        }
        i := i + 1;
      }
      assert old(tree)[..|tree|] == old(tree);
    }

    /** The second loop of installPopularApps: installPopularApp for every
        item still checked. When no checked item has install names, as the
        selection pass guarantees, it runs nothing and shows nothing. */
    method InstallRest(o: Oracle) returns (result: bool)
      modifies this`held, this`dialogs, this`commands
      requires held
      requires forall i :: 0 <= i < |tree| && tree[i].checked ==> LastInstallNames(popularApps, tree[i].name) == ""
      ensures result && held
      ensures commands == old(commands) && dialogs == old(dialogs)
    {
      result := true;
      var i := 0;
      while i < |tree|
        invariant 0 <= i <= |tree|
        invariant result && held
        invariant commands == old(commands) && dialogs == old(dialogs)
      {
        if tree[i].checked {
          var ok := InstallPopularApp(tree[i].name, o);
          if !ok {
            result := false;
          }
        }
        i := i + 1;
      }
    }

    /** installPopularApps: refreshes the sources if that was never done,
        then installs the checked catalog entries in one batch. The second
        loop sees only items the selection pass left checked, which have no
        catalog row, so it never runs a command. */
    method InstallPopularApps(updateOk: bool, o: Oracle) returns (result: bool)
      modifies this`held, this`dialogs, this`commands, this`tree, this`updatedOnce
      ensures held
      ensures tree == SelectionPass(old(tree), popularApps)
      ensures updatedOnce == (old(updatedOnce) || updateOk)
      ensures var refresh := if old(updatedOnce) then [] else [RefreshCommand];
              var names := BatchInstallNames(SelectedNames(old(tree), popularApps), popularApps);
              var c := Confirm(Action.Install, o);
              && commands == old(commands) + refresh
                   + (if names != "" && c.accepted then [Command(Action.Install, c.isOk, names)] else [])
              && result == (names == "" || !c.accepted || o.runOk)
              && dialogs == old(dialogs) + (if old(updatedOnce) || updateOk then [] else [UpdateErrorDialog])
                   + (if names != "" then c.dialogs else [])
    {
      result := true;
      if !updatedOnce {
        var _ := Update(updateOk);
      }
      ghost var refreshed, refreshDialogs := commands, dialogs;
      assert refreshed == old(commands) + (if old(updatedOnce) then [] else [RefreshCommand]);
      assert refreshDialogs == old(dialogs) + (if old(updatedOnce) || updateOk then [] else [UpdateErrorDialog]);
      var batchNames := SelectForBatch();
      ghost var c := Confirm(Action.Install, o);
      assert c.isOk == (o.syncResult == 0);
      var ok := InstallBatch(batchNames, o);
      if !ok {
        result := false;
      }
      NothingLeftAfterSelection(old(tree), popularApps);
      ok := InstallRest(o);
    }
  }
}
