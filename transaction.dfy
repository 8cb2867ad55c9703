/** The confirm-then-execute protocol of MainWindow::confirmActions,
    MainWindow::install and MainWindow::uninstall, without the window: the
    two confirmation gates, the is_ok flag and the exact pacman command line
    the runner receives. */
module Transaction {
  import opened Strings

  datatype Option<T> = None | Some(value: T)

  /** The two actions confirmActions is called with ("install", "remove"). */
  datatype Action = Install | Remove

  /** What the window learns from outside for one install or uninstall: the
      return value of the trial synchronisation (sync_trans), the answer to
      the conflict dialog (true: "Resolve/Install"), the answer to the final
      dialog (true: Ok) and whether the runner reports success. */
  datatype Oracle = Oracle(syncResult: int, conflictAccepted: bool, finalOk: bool, runOk: bool)

  /** The modal dialogs of the flow, in the order they are shown. */
  datatype Dialog = ConflictDialog | FinalDialog | UpdateErrorDialog

  /** How confirmActions ends: its result, the is_ok out-parameter, the
      dialogs it showed and whether it leaves the lock held. */
  datatype Confirmation = Confirmation(accepted: bool, isOk: bool, dialogs: seq<Dialog>, held: bool)

  /** The confirmation gate. A removal is always "ok" and never shows the
      conflict dialog. An installation is "ok" exactly when the trial
      synchronisation returns 0. A plan that is not ok shows the conflict
      dialog first; rejecting it ends the flow with false, before the final
      dialog and with the lock released. Otherwise the lock is taken again
      and the final dialog decides. */
  function Confirm(action: Action, o: Oracle): (c: Confirmation)
    ensures action == Remove ==> c.isOk && ConflictDialog !in c.dialogs
    ensures action == Install ==> (c.isOk <==> o.syncResult == 0)
    ensures !c.isOk && !o.conflictAccepted ==> !c.accepted && c.dialogs == [ConflictDialog] && !c.held
    ensures c.isOk || o.conflictAccepted ==>
              c.accepted == o.finalOk && c.held && c.dialogs == (if c.isOk then [] else [ConflictDialog]) + [FinalDialog]
  {
    var isOk := action == Remove || o.syncResult == 0;
    if !isOk && !o.conflictAccepted then Confirmation(false, false, [ConflictDialog], false)
    else Confirmation(o.finalOk, isOk, (if isOk then [] else [ConflictDialog]) + [FinalDialog], true)
  }

  /** The command line without the package names: the non-interactive
      --noconfirm form when the plan is ok, otherwise "yes" piped into the
      interactive prompt. */
  function CommandPrefix(action: Action, isOk: bool): string {
    match (action, isOk)
    case (Install, true) => "pacman -S --noconfirm "
    case (Install, false) => "yes | pacman -S "
    case (Remove, true) => "pacman -R --noconfirm "
    case (Remove, false) => "yes | pacman -R "
  }

  /** The command install or uninstall hands to the runner; the names are
      passed through verbatim. */
  function Command(action: Action, isOk: bool, names: string): string {
    CommandPrefix(action, isOk) + names
  }

  /** What a command line says: the action, which form it uses, the names. */
  datatype Invocation = Invocation(action: Action, isOk: bool, names: string)

  /** Reads a command line back. */
  function ParseCommand(cmd: string): Option<Invocation> {
    if StartsWith(cmd, "pacman -S --noconfirm ") then Some(Invocation(Install, true, cmd[22..]))
    else if StartsWith(cmd, "pacman -R --noconfirm ") then Some(Invocation(Remove, true, cmd[22..]))
    else if StartsWith(cmd, "yes | pacman -S ") then Some(Invocation(Install, false, cmd[16..]))
    else if StartsWith(cmd, "yes | pacman -R ") then Some(Invocation(Remove, false, cmd[16..]))
    else None
  }

  /** Nothing is lost in a command line: the action, the form and the exact
      names can be read back from it, so distinct requests give distinct
      commands. */
  lemma ParseCommandInverse(action: Action, isOk: bool, names: string)
    ensures ParseCommand(Command(action, isOk, names)) == Some(Invocation(action, isOk, names))
  {
    var cmd := Command(action, isOk, names);
    var prefix := CommandPrefix(action, isOk);
    assert cmd[..|prefix|] == prefix;
    assert cmd[|prefix|..] == names;
    if !isOk {
      assert cmd[0] == 'y';
    } else if action == Remove {
      assert cmd[8] == 'R';
    }
  }

  /** Every command line that reads back is the command of what it reads
      back to. */
  lemma CommandOfParse(cmd: string)
    ensures ParseCommand(cmd).Some? ==>
      Command(ParseCommand(cmd).value.action, ParseCommand(cmd).value.isOk, ParseCommand(cmd).value.names) == cmd
  {
    if ParseCommand(cmd).Some? {
      var inv := ParseCommand(cmd).value;
      var prefix := CommandPrefix(inv.action, inv.isOk);
      assert cmd == cmd[..|prefix|] + cmd[|prefix|..];
    }
  }

  /** Two commands are equal only when they come from the same action, form
      and names. */
  lemma CommandInjective(a1: Action, ok1: bool, n1: string, a2: Action, ok2: bool, n2: string)
    requires Command(a1, ok1, n1) == Command(a2, ok2, n2)
    ensures a1 == a2 && ok1 == ok2 && n1 == n2
  {
    ParseCommandInverse(a1, ok1, n1);
    ParseCommandInverse(a2, ok2, n2);
  }
}
