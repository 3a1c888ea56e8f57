# MonitorManager, modelled in Dafny

MonitorManager is a small X11 daemon. It polls `xrandr` for the connected
monitors and resolves the snapshot to the first configured *workspace* whose
primary monitor is the detected primary and whose secondary monitors are all
connected. When a workspace matches and the snapshot differs from the
previous poll, it applies the workspace's layout with one `xrandr` command
and then runs the configured *monitor-switch scripts* through `bash -c`.

This project models that core:

- `wrappers.dfy` holds `Option` and `Result`.
- `strings.dfy` models the Rust `str` operations the core relies on:
  `contains`, `replace`, `lines`, and the first field of `split(" ")`.
- `config.dfy` models the configuration values (`WorkSpace`, `MonitorPositions`, `Config`).
  - It covers the position keyword parser and the secondary monitor list.
  - It covers the workspace resolver `WorkSpace::get`.
  - It covers the value-level part of `WorkSpace::create`: the `"auto"` substitution and the collect of the positions into a map.
- `display.dfy` models the parse of `xrandr`'s report into monitor names.
  It also models the argument vector that `update_outputs` hands to `xrandr`.
- `monitor_manager.dfy` models the poll loop of `main`.
  - It covers one iteration with its change gate and `previous_monitors = monitors`.
  - It covers a finite run of iterations, and `execute_monitor_switch_scripts`.

The outside world enters as values:

- `xrandr`'s printed report is a string.
- The sequence of snapshots, one per poll, is a list.
- Whether `bash -c command` can be started is a function `spawn: string -> bool`.

The loop's effects come back as a list of `Action`s:

- `ApplyOutputs(args)`: `xrandr` run with these arguments.
- `RunScript(command, spawned)`: one script attempted.

`ExecuteMonitorSwitchScripts`, `PollIteration` and `MainLoop` are loops or
step-by-step state updates in the source. They are methods here, each proved
equal to a specification function (`ScriptActions`, `StepActions`,
`RunPolls`), and the lemmas state the source's promises about those functions.

Where the code does something other than its own comments or documentation
suggest, the model follows the code:

- A failing switch script stops the remaining scripts. The `?` in
  `execute_monitor_switch_scripts` returns at the first command that cannot
  be started.
- The scripts also run on the first poll, because `previous_monitors` starts empty.
- The resolver runs on every poll. Only the layout change and the scripts are gated on a change of snapshot.

## Model

| member | source | states |
|---|---|---|
| Config.ParsePosition | src/config.rs:92-98 | `"rightOf"` gives `RightOf`, `"leftOf"` gives `LeftOf`, and any other text is an error, each as an if-and-only-if |
| Config.ParsePositionRoundTrip | src/config.rs:92-98 | parsing the keyword of a position gives that position back, and a keyword that parses to a position is that position's keyword |
| Config.IterationOrder | src/config.rs:40-41 | the map's iteration visits every configured position exactly once and nothing else |
| Config.SecondaryMonitorList | src/config.rs:36-44 | `None` exactly when the workspace has no secondary map; otherwise one name per entry, and every entry's monitor is listed |
| Config.SecondaryMonitorListCounts | src/config.rs:36-44 | each name occurs in the list as many times as positions hold it, so the list is the map's values as a multiset |
| Config.FoldContained | src/config.rs:28 | the fold starting from `acc` can only hold when `acc` does |
| Config.FoldContainedIsContainment | src/config.rs:28 | the `fold(true, a && contains)` is true exactly when every listed secondary monitor is among the detected ones |
| Config.Matches | src/config.rs:25-30 | the test one iteration of the scan applies; a workspace that passes it has the detected primary |
| Config.MatchesIsSubsetTest | src/config.rs:25-30 | a workspace matches exactly when its primary is the detected primary and, if it lists secondaries, all of them are detected |
| Config.MatchesIgnoresOrderAndExtras | src/config.rs:25-30 | the detected secondaries' order does not matter, and extra detected monitors do not prevent a match |
| Config.NoSecondariesMatchesAny | src/config.rs:30 | a workspace without secondaries matches any snapshot with its primary |
| Config.Get | src/config.rs:22-34 | a returned workspace is configured, matches the snapshot and has the detected primary; `None` exactly when no workspace matches |
| Config.GetReturnsFirstMatch | src/config.rs:24-33 | the result is the first matching workspace in configuration order |
| Config.GetPrefersEarlier | src/config.rs:19-24 | an earlier matching workspace shadows every later one, which is why the most specific one must come first |
| Config.ResolverExamples | src/config.rs:22-34 | a dual-monitor workspace listed before a single-monitor one is chosen when both are connected, and the single one when only the primary is |
| Config.CollectPositions | src/config.rs:61-80 | the collected map's positions are exactly those of the entries |
| Config.CollectPositionsLastWins | src/config.rs:79 | a position listed several times keeps the monitor of its last entry |
| Config.ParseSecondaries | src/config.rs:62-78 | succeeds exactly when every position keyword parses, keeps the entries' order and monitors, and otherwise reports a keyword that does not parse |
| Config.CollectedEntriesLastWin | src/config.rs:79 | every position of the collected map holds the monitor of its last entry |
| Config.CreateWorkspace | src/config.rs:47-81 | keeps the name, replaces `"auto"` in the primary monitor by the detected primary, keeps the absence of secondaries, and fails exactly when a position keyword is unknown; the secondary map is the collect of the parsed entries, its positions are theirs, and each position holds the monitor of its last entry |
| Config.DuplicatePositionLastWins | src/config.rs:61-80 | two `leftOf` entries give one map entry holding the second monitor |
| Config.AutoSubstitutionExamples | src/config.rs:57-60 | `"auto"` becomes the detected monitor, `"my-auto"` becomes `"my-M1"`, and a name without `"auto"` is kept |
| Config.AutoPrimaryExample | src/config.rs:53-60 | a workspace whose primary is `"auto"` loads with the detected monitor as its primary |
| Strings.Contains | src/display.rs:13 | `contains`: a pattern that occurs is no longer than the text, and the empty pattern occurs in every text |
| Strings.ContainsShift | src/display.rs:13 | a pattern occurs in a non-empty string exactly when the string starts with it or it occurs in the tail |
| Strings.MissingCharNotContained | src/display.rs:13 | a pattern with a character the line lacks does not occur in it |
| Strings.ReplaceAllWithoutMatch | src/config.rs:57 | a string in which the pattern does not occur is returned unchanged |
| Strings.ReplaceAllFirst | src/config.rs:57 | the leftmost occurrence is replaced: for `a + from + b` where `from` does not occur before that occurrence ends, the result is `a + to` followed by the replaced `b` |
| Strings.ReplaceAllBySelf | src/config.rs:57 | replacing a pattern by itself changes nothing |
| Strings.IndexOf | src/display.rs:14 | the position of the first occurrence of the character, or the length when there is none |
| Strings.FirstField | src/display.rs:14 | the text before the first space: a prefix of the line without a space, followed by a space or the line's end |
| Strings.TrimCarriageReturn | src/display.rs:12 | removes exactly one trailing `\r` when there is one and otherwise returns the line unchanged |
| Strings.Lines | src/display.rs:12 | the lines hold no newline, and there are none exactly when the text is empty |
| Strings.LinesOfTerminated | src/display.rs:12 | splitting newline-terminated lines gives those lines back |
| Display.IsConnectedLine | src/display.rs:13 | the filter's test: a line that passes it is at least as long as `" connected"` |
| Display.ConnectedNames | src/display.rs:12-15 | at most one name per line, and no name contains a space or a newline |
| Display.MonitorNames | src/display.rs:6-16 | the names reported contain neither a space nor a newline |
| Display.ConnectedNamesAppend | src/display.rs:12-15 | the filter and map work line by line: the names of two blocks of lines are concatenated in order |
| Display.ConnectedNamesOfLine | src/display.rs:13-14 | a line contributes its first field exactly when it contains `" connected"`, and nothing otherwise |
| Display.ConnectedNameIsProperPrefix | src/display.rs:13-14 | a kept line's name is strictly shorter than the line |
| Display.MonitorNamesOfTerminated | src/display.rs:6-16 | on newline-terminated output, the names are those of the connected lines, in order |
| Display.ConnectedLineExample | src/display.rs:13-14 | `"eDP-1 connected primary"` is kept and names `eDP-1` |
| Display.DisconnectedLineExample | src/display.rs:13 | `"HDMI-1 disconnected"` is dropped, because the space must come right before `connected` |
| Display.ModeLineExample | src/display.rs:13 | a mode line is dropped |
| Display.ReportLinesExample | src/display.rs:12-15 | of a connected, a disconnected and a mode line, only the connected output's name is kept |
| Display.MonitorNamesExample | src/display.rs:6-16 | a typical three-line report yields `["eDP-1"]` |
| Display.PositionFlag | src/display.rs:45-48 | `LeftOf` gives `--left-of` and `RightOf` gives `--right-of`, each as an if-and-only-if |
| Display.OutputGroup | src/display.rs:49 | five arguments naming the secondary monitor second and the primary last, with `--left-of` in fourth place exactly for `LeftOf` |
| Display.SecondaryArgs | src/display.rs:40-51 | five arguments per secondary, the `i`-th five being the group of the `i`-th visited position |
| Display.UpdateOutputsArgs | src/display.rs:20-62 | without secondaries only `--auto`; otherwise the primary's four arguments followed by five per secondary |
| Display.GroupsFollowIterationOrder | src/display.rs:40-58 | the `i`-th group places the monitor of the `i`-th visited position on that side of the primary |
| Display.EachSecondaryHasOneGroup | src/display.rs:40-58 | every configured position has a group placing its monitor, and any group with that position's flag is that group |
| Display.GroupsAnchorOnPrimary | src/display.rs:49 | every group is `--output NAME --auto FLAG PRIMARY` on the workspace's primary |
| Display.GroupNamesAreSecondaryList | src/display.rs:40-51 | the monitors named in the groups are the workspace's secondary monitor list, in the same order |
| Display.UpdateOutputsExample | src/display.rs:18 | a monitor left of the primary gives the command line documented in the comment |
| Display.UpdateOutputsRightOfExample | src/display.rs:45-49 | a monitor right of the primary gives the `--right-of` command line |
| MonitorManager.ScriptActions | src/main.rs:57-65 | never more attempts than commands |
| MonitorManager.ScriptsStopAtFirstFailure | src/main.rs:57-65 | the attempts follow the list in order, each records whether its command started, all but the last started, a run that stops early ends in a failure, and a non-empty list attempts at least one command |
| MonitorManager.AllScriptsAttempted | src/main.rs:58-63 | every command is attempted exactly when all but possibly the last one start |
| MonitorManager.ExecuteMonitorSwitchScripts | src/main.rs:57-65 | performs exactly the attempts of `ScriptActions`; `Ok` exactly when every command starts, otherwise the error names the last command attempted |
| MonitorManager.StepActions | src/main.rs:25-52 | what one iteration does; it acts only when the snapshot differs from the remembered one, and then applies outputs first |
| MonitorManager.PollIteration | src/main.rs:25-52 | performs exactly `StepActions` for the snapshot and remembers the current snapshot |
| MonitorManager.RunPolls | src/main.rs:22-53 | the actions of a run of polls; a run acts only if some poll differs from the snapshot remembered before it |
| MonitorManager.MainLoop | src/main.rs:22-53 | the loop over a run of polls performs exactly `RunPolls` from an empty snapshot and ends remembering the last poll |
| MonitorManager.StepActsOnlyOnMatchedChange | src/main.rs:31-36 | a poll acts exactly when a workspace matched and the snapshot changed, and then first applies that workspace on the detected primary |
| MonitorManager.ScriptsOnlyAfterApply | src/main.rs:35-42 | only the first action applies outputs and every later one is a script; without configured scripts there is at most the layout change |
| MonitorManager.RepollIsIdle | src/main.rs:35 | polling the same snapshot again does nothing |
| MonitorManager.ReorderIsChange | src/main.rs:35 | the same monitors in a different order count as a change |
| MonitorManager.FirstPollApplies | src/main.rs:23-42 | the first poll applies a matching workspace and, with scripts configured, runs them |
| MonitorManager.RepeatedSnapshotIsIdle | src/main.rs:35-52 | once a snapshot is remembered, any number of further identical polls do nothing |
| MonitorManager.SteadyTopologyActsOnce | src/main.rs:24-53 | a run of identical snapshots acts on its first poll only |
| MonitorManager.DualFirstPoll | src/main.rs:31-42 | the first poll of a dual-monitor workspace applies its `--right-of` layout and then starts its script |
| MonitorManager.TwoPollScenario | src/main.rs:22-53 | a dual-monitor workspace polled twice applies its `--right-of` layout and runs its script once |

## Left out

- `get_config_json` and `Config::get` (src/config.rs:101-144) are left out: reading `$HOME`, opening the settings file and JSON parsing are I/O. So are the `expect` panics on missing or mistyped JSON fields. `Config` and `CreateWorkspace` take the already extracted fields.
- An unknown position keyword makes `WorkSpace::create` panic. `CreateWorkspace` returns `Err(UnknownPosition(...))` instead, so that the failure is a value.
- `WorkSpace::create` calls `get_monitor_names()[0]` for the `"auto"` substitution. Here that detected primary is the parameter `detectedPrimary`. The panics when `xrandr` fails or reports no monitor are not modelled.
- Running `xrandr` and `bash` is not modelled, nor is the `from_utf8` check of `xrandr`'s output, nor the `expect` panics when `xrandr` fails. Commands are returned as argument lists and actions.
- MonitorManager.ExecuteMonitorSwitchScripts: `spawn` says only whether a command could be started. A script that starts and then exits with a non-zero status counts as a success, as in the source, and its output is not modelled.
- Config.IterationOrder: a Rust `HashMap` iterates in an unspecified order. The model fixes one order, `RightOf` before `LeftOf`. The properties of the argument vector and of the secondary monitor list are stated position by position along `IterationOrder`, so they describe that one order. `SecondaryArgs` itself accepts any visit order.
- The `println!` logging is not modelled: the configuration dump, the snapshot, the chosen workspace, "No workspace found", `xrandr`'s output and the script error message.
- `thread::sleep(reload_time)` is not modelled. `reload_time` is kept in `Config` as a 64-bit unsigned value, but time is not modelled.
- MonitorManager.MainLoop: the source loops forever. The model runs over a finite list of snapshots, which covers every finite prefix of a run.
- MonitorManager.PollIteration: the source panics when `xrandr` reports no monitor (`monitors[0]`). The model requires a non-empty snapshot.
