/**
 * The poll loop of the monitor manager (src/main.rs): each poll takes a
 * snapshot of the connected monitors, resolves the workspace for it and,
 * when a workspace matched and the snapshot differs from the previous one,
 * applies the workspace's outputs and runs the switch scripts.
 *
 * The outside world enters as values: the snapshots `xrandr` reports, one
 * per poll, and `spawn`, which tells whether `bash -c` could be started for
 * a command. What the loop does to the outside world is returned as a list
 * of actions.
 */
module MonitorManager {
  import opened Wrappers
  import Config
  import Display

  /** An effect of one poll on the outside world. */
  datatype Action =
    | ApplyOutputs(args: seq<string>)              // `xrandr` run with these arguments
    | RunScript(command: string, spawned: bool)    // `bash -c command` attempted; whether it started

  /** The error `execute_monitor_switch_scripts` returns: a command that could not be started. */
  datatype SpawnError = SpawnError(command: string)

  // ---------------------------------------------------------------------
  // Switch scripts
  // ---------------------------------------------------------------------

  /**
   * The commands `execute_monitor_switch_scripts` attempts, in list order:
   * every command up to and including the first one that cannot be started.
   */
  function ScriptActions(commands: seq<string>, spawn: string -> bool): (r: seq<Action>)
    ensures |r| <= |commands|
  {
    if commands == [] then []
    else if spawn(commands[0]) then [RunScript(commands[0], true)] + ScriptActions(commands[1..], spawn)
    else [RunScript(commands[0], false)]
  }

  /**
   * The attempts follow the list, each recording whether its command
   * started, and stop exactly at the first failure: every attempt but the
   * last one started, a list that stops early ends in a failure, and at
   * least one command is attempted whenever there is one.
   */
  lemma {:induction false} ScriptsStopAtFirstFailure(commands: seq<string>, spawn: string -> bool)
    ensures var r := ScriptActions(commands, spawn);
      && (forall i :: 0 <= i < |r| ==> r[i] == RunScript(commands[i], spawn(commands[i])))
      && (forall i :: 0 <= i < |r| - 1 ==> spawn(commands[i]))
      && (|r| < |commands| ==> 0 < |r| && !spawn(commands[|r| - 1]))
      && (commands != [] ==> r != [])
  {
    if commands != [] && spawn(commands[0]) {
      ScriptsStopAtFirstFailure(commands[1..], spawn);
    }
  }

  /** Every command is attempted exactly when every command but the last one starts. */
  lemma {:induction false} AllScriptsAttempted(commands: seq<string>, spawn: string -> bool)
    ensures |ScriptActions(commands, spawn)| == |commands| <==>
            forall i :: 0 <= i < |commands| - 1 ==> spawn(commands[i])
  {
    if commands != [] && spawn(commands[0]) {
      AllScriptsAttempted(commands[1..], spawn);
    }
  }

  /**
   * `execute_monitor_switch_scripts`: runs the commands in order and stops at
   * the first one that cannot be started, returning its error.
   */
  method ExecuteMonitorSwitchScripts(commands: seq<string>, spawn: string -> bool)
    returns (actions: seq<Action>, result: Result<(), SpawnError>)
    ensures actions == ScriptActions(commands, spawn)
    ensures result.Ok? <==> forall i :: 0 <= i < |commands| ==> spawn(commands[i])
    ensures result.Err? ==> 0 < |actions| <= |commands| && result.error == SpawnError(commands[|actions| - 1])
  {
    actions := [];
    var i := 0;
    while i < |commands|
      invariant 0 <= i <= |commands| && |actions| == i
      invariant forall j :: 0 <= j < i ==> spawn(commands[j])
      invariant actions + ScriptActions(commands[i..], spawn) == ScriptActions(commands, spawn)
    {
      var command := commands[i];
      var started := spawn(command);
      ScriptActionsUnfold(commands, i, spawn);
      if !started {
        actions := actions + [RunScript(command, false)];
        return actions, Err(SpawnError(command));
      }
      ghost var rest := ScriptActions(commands[i + 1..], spawn);
      assert actions + ([RunScript(command, true)] + rest) == (actions + [RunScript(command, true)]) + rest;
      actions := actions + [RunScript(command, true)];
      i := i + 1;
    }
    assert commands[i..] == [] && actions + [] == actions;
    return actions, Ok(());
  }

  /** The scripts attempted from position `i` on: command `i`, then the rest if it started. */
  lemma ScriptActionsUnfold(commands: seq<string>, i: nat, spawn: string -> bool)
    requires i < |commands|
    ensures ScriptActions(commands[i..], spawn) ==
      if spawn(commands[i]) then [RunScript(commands[i], true)] + ScriptActions(commands[i + 1..], spawn)
      else [RunScript(commands[i], false)]
  {
    assert commands[i..][0] == commands[i];
    assert commands[i..][1..] == commands[i + 1..];
  }

  // ---------------------------------------------------------------------
  // One poll
  // ---------------------------------------------------------------------

  /**
   * What one iteration of the loop in `main` does, given the previous
   * snapshot and the current one (primary first, then the secondaries).
   */
  function StepActions(config: Config.Config, previous: seq<string>, monitors: seq<string>, spawn: string -> bool): (r: seq<Action>)
    requires monitors != []
    ensures r != [] ==> monitors != previous && r[0].ApplyOutputs?
  {
    match Config.Get(config.workspaces, monitors[0], monitors[1..])
    case None => []
    case Some(workspace) =>
      if monitors != previous then
        [ApplyOutputs(Display.UpdateOutputsArgs(workspace.primaryMonitor, workspace.secondaryMonitors))]
        + match config.switchScripts
          case None => []
          case Some(commands) => ScriptActions(commands, spawn)
      else []
  }

  /** One iteration of the loop in `main`: returns its actions and the snapshot to remember. */
  method PollIteration(config: Config.Config, previous: seq<string>, monitors: seq<string>, spawn: string -> bool)
    returns (actions: seq<Action>, next: seq<string>)
    requires monitors != []
    ensures actions == StepActions(config, previous, monitors, spawn)
    ensures next == monitors
  {
    var activePrimary := monitors[0];
    var activeSecondaries := monitors[1..];
    actions := [];
    match Config.Get(config.workspaces, activePrimary, activeSecondaries) {
      case Some(workspace) =>
        if monitors != previous {
          actions := [ApplyOutputs(Display.UpdateOutputsArgs(workspace.primaryMonitor, workspace.secondaryMonitors))];
          match config.switchScripts {
            case Some(commands) =>
              // A failing script is reported and the loop goes on.
              var ran, _ := ExecuteMonitorSwitchScripts(commands, spawn);
              actions := actions + ran;
            case None =>
          }
        }
      case None =>
    }
    next := monitors;
  }

  /** Poll `i` of a run differs from the snapshot remembered before it. */
  predicate ChangedAt(previous: seq<string>, polls: seq<seq<string>>, i: nat)
    requires i < |polls|
  {
    polls[i] != if i == 0 then previous else polls[i - 1]
  }

  /** The actions of a run of polls, starting from the snapshot `previous`. */
  function RunPolls(config: Config.Config, previous: seq<string>, polls: seq<seq<string>>, spawn: string -> bool): (r: seq<Action>)
    requires forall i :: 0 <= i < |polls| ==> polls[i] != []
    ensures r != [] ==> exists i :: 0 <= i < |polls| && ChangedAt(previous, polls, i)
    decreases |polls|
  {
    if polls == [] then []
    else
      var step := StepActions(config, previous, polls[0], spawn);
      var rest := RunPolls(config, polls[0], polls[1..], spawn);
      assert step + rest != [] ==> exists i :: 0 <= i < |polls| && ChangedAt(previous, polls, i) by {
        if step != [] {
          assert ChangedAt(previous, polls, 0);
        } else if rest != [] {
          var j :| 0 <= j < |polls[1..]| && ChangedAt(polls[0], polls[1..], j);
          assert ChangedAt(previous, polls, j + 1);
        }
      }
      StepActions(config, previous, polls[0], spawn) + rest
  }

  /**
   * The loop in `main` over a finite run of polls: the remembered snapshot
   * starts empty and becomes the current snapshot after every poll.
   */
  method MainLoop(config: Config.Config, polls: seq<seq<string>>, spawn: string -> bool)
    returns (actions: seq<Action>, previousMonitors: seq<string>)
    requires forall i :: 0 <= i < |polls| ==> polls[i] != []
    ensures actions == RunPolls(config, [], polls, spawn)
    ensures previousMonitors == if polls == [] then [] else polls[|polls| - 1]
  {
    previousMonitors := [];
    actions := [];
    var i := 0;
    while i < |polls|
      invariant 0 <= i <= |polls|
      invariant previousMonitors == if i == 0 then [] else polls[i - 1]
      invariant actions + RunPolls(config, previousMonitors, polls[i..], spawn) == RunPolls(config, [], polls, spawn)
    {
      var stepActions, next := PollIteration(config, previousMonitors, polls[i], spawn);
      RunPollsStep(config, previousMonitors, polls, i, spawn, actions);
      actions, previousMonitors := actions + stepActions, next;
      i := i + 1;
    }
    assert polls[i..] == [];
  }

  /** Poll `i` moves its actions from the pending run to the performed ones and becomes the remembered snapshot. */
  lemma RunPollsStep(config: Config.Config, previous: seq<string>, polls: seq<seq<string>>, i: nat, spawn: string -> bool,
                     done: seq<Action>)
    requires forall j :: 0 <= j < |polls| ==> polls[j] != []
    requires i < |polls|
    ensures done + RunPolls(config, previous, polls[i..], spawn)
            == (done + StepActions(config, previous, polls[i], spawn)) + RunPolls(config, polls[i], polls[i + 1..], spawn)
  {
    assert polls[i..][0] == polls[i];
    assert polls[i..][1..] == polls[i + 1..];
  }

  // ---------------------------------------------------------------------
  // Properties of the loop
  // ---------------------------------------------------------------------

  /** A poll acts exactly when a workspace matched and the snapshot changed, and then applies it first. */
  lemma StepActsOnlyOnMatchedChange(config: Config.Config, previous: seq<string>, monitors: seq<string>, spawn: string -> bool)
    requires monitors != []
    ensures var actions := StepActions(config, previous, monitors, spawn);
      var resolved := Config.Get(config.workspaces, monitors[0], monitors[1..]);
      && (actions != [] <==> resolved.Some? && monitors != previous)
      && (actions != [] ==> actions[0] == ApplyOutputs(
            Display.UpdateOutputsArgs(monitors[0], resolved.value.secondaryMonitors)))
  {
  }

  /** Scripts run only after a matched change, and never when no scripts are configured. */
  lemma ScriptsOnlyAfterApply(config: Config.Config, previous: seq<string>, monitors: seq<string>, spawn: string -> bool)
    requires monitors != []
    ensures var actions := StepActions(config, previous, monitors, spawn);
      && (forall i :: 0 <= i < |actions| ==> (actions[i].RunScript? <==> i > 0))
      && (config.switchScripts.None? ==> |actions| <= 1)
      && (config.switchScripts.Some? && actions != [] ==>
            actions[1..] == ScriptActions(config.switchScripts.value, spawn))
  {
    if config.switchScripts.Some? {
      ScriptsStopAtFirstFailure(config.switchScripts.value, spawn);
    }
  }

  /** Polling an unchanged topology again does nothing. */
  lemma RepollIsIdle(config: Config.Config, monitors: seq<string>, spawn: string -> bool)
    requires monitors != []
    ensures StepActions(config, monitors, monitors, spawn) == []
  {
  }

  /** A reordered snapshot counts as a change. */
  lemma ReorderIsChange(config: Config.Config, spawn: string -> bool)
    requires Config.Get(config.workspaces, "M2", ["M1"]).Some?
    ensures StepActions(config, ["M1", "M2"], ["M2", "M1"], spawn) != []
  {
    assert ["M2", "M1"][1..] == ["M1"];
    assert ["M2", "M1"] != ["M1", "M2"] by {
      assert ["M2", "M1"][0] != ["M1", "M2"][0];
    }
  }

  /** The first poll remembers nothing, so a matching workspace is applied and the scripts run. */
  lemma FirstPollApplies(config: Config.Config, monitors: seq<string>, spawn: string -> bool)
    requires monitors != []
    requires Config.Get(config.workspaces, monitors[0], monitors[1..]).Some?
    ensures var actions := RunPolls(config, [], [monitors], spawn);
      && actions != [] && actions[0].ApplyOutputs?
      && (config.switchScripts.Some? && config.switchScripts.value != [] ==> |actions| > 1)
  {
    assert [monitors][1..] == [];
  }

  /** Repeating one snapshot any number of times after it was seen does nothing. */
  lemma {:induction false} RepeatedSnapshotIsIdle(config: Config.Config, monitors: seq<string>, n: nat, spawn: string -> bool)
    requires monitors != []
    ensures RunPolls(config, monitors, seq(n, _ => monitors), spawn) == []
  {
    if n > 0 {
      var polls := seq(n, _ => monitors);
      assert polls[1..] == seq(n - 1, _ => monitors);
      RepeatedSnapshotIsIdle(config, monitors, n - 1, spawn);
    }
  }

  /** A run of identical snapshots acts on the first poll only. */
  lemma {:induction false} SteadyTopologyActsOnce(config: Config.Config, previous: seq<string>, monitors: seq<string>, n: nat,
                                                   spawn: string -> bool)
    requires monitors != [] && n > 0
    ensures RunPolls(config, previous, seq(n, _ => monitors), spawn) == StepActions(config, previous, monitors, spawn)
  {
    var polls := seq(n, _ => monitors);
    assert polls[1..] == seq(n - 1, _ => monitors);
    RepeatedSnapshotIsIdle(config, monitors, n - 1, spawn);
  }

  /**
   * One dual-monitor workspace, polled twice with the same monitors: the
   * first poll applies it and runs the script, the second does nothing.
   */
  lemma TwoPollScenario(config: Config.Config, snapshot: seq<string>, spawn: string -> bool)
    requires config == Config.Config(5, [Config.Workspace("dual", "M1", Some(map[Config.RightOf := "M2"]))], Some(["notify"]))
    requires snapshot == ["M1", "M2"] && spawn("notify")
    ensures RunPolls(config, [], [snapshot, snapshot], spawn)
            == [ApplyOutputs(["--output", "M1", "--auto", "--primary", "--output", "M2", "--auto", "--right-of", "M1"]),
                RunScript("notify", true)]
  {
    assert RunPolls(config, [], [snapshot, snapshot], spawn) == StepActions(config, [], snapshot, spawn) by {
      SteadyTopologyActsOnce(config, [], snapshot, 2, spawn);
      assert seq(2, _ => snapshot) == [snapshot, snapshot];
    }
    DualFirstPoll(config, snapshot, spawn);
  }

  /** The first poll of the scenario above: the layout is applied and the script started. */
  lemma DualFirstPoll(config: Config.Config, snapshot: seq<string>, spawn: string -> bool)
    requires config == Config.Config(5, [Config.Workspace("dual", "M1", Some(map[Config.RightOf := "M2"]))], Some(["notify"]))
    requires snapshot == ["M1", "M2"] && spawn("notify")
    ensures StepActions(config, [], snapshot, spawn)
            == [ApplyOutputs(["--output", "M1", "--auto", "--primary", "--output", "M2", "--auto", "--right-of", "M1"]),
                RunScript("notify", true)]
  {
    var dual := config.workspaces[0];
    assert snapshot[0] == "M1" && snapshot[1..] == ["M2"];
    assert Config.Get(config.workspaces, "M1", ["M2"]) == Some(dual) by {
      Config.MatchesIsSubsetTest(dual, "M1", ["M2"]);
    }
    assert Display.UpdateOutputsArgs(dual.primaryMonitor, dual.secondaryMonitors)
           == ["--output", "M1", "--auto", "--primary", "--output", "M2", "--auto", "--right-of", "M1"] by {
      Display.UpdateOutputsRightOfExample();
    }
    assert ScriptActions(["notify"], spawn) == [RunScript("notify", true)];
  }
}
