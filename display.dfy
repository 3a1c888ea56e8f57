/**
 * Reading the connected monitors from `xrandr`'s output and building the
 * `xrandr` arguments that apply a workspace (src/display.rs). The process
 * calls themselves are not modelled: parsing takes the printed text, and
 * the layout is returned as the argument list `xrandr` would receive.
 */
module Display {
  import opened Wrappers
  import opened Strings
  import opened Config

  // ---------------------------------------------------------------------
  // Parsing `xrandr` output
  // ---------------------------------------------------------------------

  /** A line that `get_monitor_names` keeps. */
  predicate IsConnectedLine(line: string)
    ensures IsConnectedLine(line) ==> |line| >= |" connected"|
  {
    Contains(line, " connected")
  }

  /** The name of each kept line, in line order. */
  function ConnectedNames(lines: seq<string>): (names: seq<string>)
    ensures |names| <= |lines|
    ensures forall k :: 0 <= k < |names| ==> ' ' !in names[k]
    ensures (forall k :: 0 <= k < |lines| ==> '\n' !in lines[k]) ==>
              forall k :: 0 <= k < |names| ==> '\n' !in names[k]
  {
    if lines == [] then []
    else
      var rest := ConnectedNames(lines[1..]);
      if IsConnectedLine(lines[0]) then [FirstField(lines[0])] + rest else rest
  }

  /** `get_monitor_names` on the text `xrandr` printed. */
  function MonitorNames(stdout: string): (names: seq<string>)
    ensures forall k :: 0 <= k < |names| ==> ' ' !in names[k] && '\n' !in names[k]
  {
    ConnectedNames(Lines(stdout))
  }

  /** Line by line: each kept line adds its name after those of the lines before it. */
  lemma {:induction false} ConnectedNamesAppend(front: seq<string>, back: seq<string>)
    ensures ConnectedNames(front + back) == ConnectedNames(front) + ConnectedNames(back)
  {
    if front == [] {
      assert front + back == back;
    } else {
      assert (front + back)[1..] == front[1..] + back;
      ConnectedNamesAppend(front[1..], back);
    }
  }

  /** A line without " connected" contributes nothing; a line with it contributes its first field. */
  lemma ConnectedNamesOfLine(line: string)
    ensures ConnectedNames([line]) == if IsConnectedLine(line) then [FirstField(line)] else []
  {
    assert [line][1..] == [];
  }

  /** A kept line has a space, so its name is strictly shorter than the line. */
  lemma ConnectedNameIsProperPrefix(line: string)
    requires IsConnectedLine(line)
    ensures |FirstField(line)| < |line|
  {
    var i: nat :| i <= |line| && OccursAt(line, " connected", i);
    assert line[i] == " connected"[0];
  }

  /** On newline-terminated output, the names are those of the connected lines, in order. */
  lemma MonitorNamesOfTerminated(lines: seq<string>)
    requires forall k :: 0 <= k < |lines| ==> IsBareLine(lines[k])
    ensures MonitorNames(Terminated(lines)) == ConnectedNames(lines)
  {
    LinesOfTerminated(lines);
  }

  /** A connected output's line is kept and yields the output's name. */
  lemma ConnectedLineExample()
    ensures IsConnectedLine("eDP-1 connected primary") && FirstField("eDP-1 connected primary") == "eDP-1"
  {
    assert OccursAt("eDP-1 connected primary", " connected", 5);
    var line := "eDP-1 connected primary";
    assert line[5] == ' ' && line[..5] == "eDP-1";
    assert forall j :: 0 <= j < 5 ==> line[j] != ' ';
  }

  /** A disconnected output's line is dropped: " connected" needs the space right before it. */
  lemma DisconnectedLineExample()
    ensures !IsConnectedLine("HDMI-1 disconnected")
  {
    var line := "HDMI-1 disconnected";
    forall i: nat | i <= |line| ensures !OccursAt(line, " connected", i) {
      if i == 6 {
        assert line[i..i + 10][1] == line[7] == 'd';
      } else if i + 10 <= |line| {
        assert line[i..i + 10][0] == line[i] != ' ';
      }
    }
  }

  /** A mode line is dropped. */
  lemma ModeLineExample()
    ensures !IsConnectedLine("   1920x1080")
  {
    MissingCharNotContained("   1920x1080", " connected", 1);
  }

  /** The lines of the typical report below, classified. */
  lemma ReportLinesExample()
    ensures ConnectedNames(["eDP-1 connected primary", "HDMI-1 disconnected", "   1920x1080"]) == ["eDP-1"]
  {
    var l0, l1, l2 := "eDP-1 connected primary", "HDMI-1 disconnected", "   1920x1080";
    ConnectedLineExample();
    DisconnectedLineExample();
    ModeLineExample();
    assert [l0, l1, l2][1..] == [l1, l2] && [l1, l2][1..] == [l2] && [l2][1..] == [];
    assert ConnectedNames([l2]) == [];
    assert ConnectedNames([l1, l2]) == [];
  }

  /** A typical report: the connected outputs are listed, the disconnected and mode lines are not. */
  lemma MonitorNamesExample()
    ensures MonitorNames("eDP-1 connected primary" + "\n" + "HDMI-1 disconnected" + "\n" + "   1920x1080" + "\n")
            == ["eDP-1"]
  {
    var l0, l1, l2 := "eDP-1 connected primary", "HDMI-1 disconnected", "   1920x1080";
    var lines := [l0, l1, l2];
    assert lines[1..] == [l1, l2] && lines[1..][1..] == [l2] && lines[1..][1..][1..] == [];
    assert Terminated([l2]) == l2 + "\n" + Terminated([]);
    assert Terminated([l1, l2]) == l1 + "\n" + Terminated([l2]);
    assert Terminated(lines) == l0 + "\n" + Terminated([l1, l2]);
    assert l2 + "\n" + [] == l2 + "\n";
    assert Terminated(lines) == l0 + "\n" + l1 + "\n" + l2 + "\n";
    assert IsBareLine(l0) && IsBareLine(l1) && IsBareLine(l2);
    MonitorNamesOfTerminated(lines);
    ReportLinesExample();
  }

  // ---------------------------------------------------------------------
  // Building the `xrandr` arguments
  // ---------------------------------------------------------------------

  /** The `xrandr` flag for a position. */
  function PositionFlag(position: MonitorPosition): (flag: string)
    ensures flag == "--left-of" <==> position == LeftOf
    ensures flag == "--right-of" <==> position == RightOf
  {
    match position
    case LeftOf => "--left-of"
    case RightOf => "--right-of"
  }

  /** The five arguments that place one secondary monitor next to the primary. */
  function OutputGroup(name: string, position: MonitorPosition, primary: string): (group: seq<string>)
    ensures |group| == 5 && group[1] == name && group[4] == primary
    ensures group[3] == "--left-of" <==> position == LeftOf
  {
    ["--output", name, "--auto", PositionFlag(position), primary]
  }

  /** The `flat_map` over the secondary map, visiting the positions in `keys`. */
  function SecondaryArgs(m: map<MonitorPosition, string>, keys: seq<MonitorPosition>, primary: string): (args: seq<string>)
    requires forall k :: k in keys ==> k in m
    ensures |args| == 5 * |keys|
    ensures forall i :: 0 <= i < |keys| ==> args[5 * i..5 * i + 5] == OutputGroup(m[keys[i]], keys[i], primary)
  {
    if keys == [] then []
    else
      var group := OutputGroup(m[keys[0]], keys[0], primary);
      var rest := SecondaryArgs(m, keys[1..], primary);
      assert forall i :: 0 < i < |keys| ==> (group + rest)[5 * i..5 * i + 5] == rest[5 * (i - 1)..5 * (i - 1) + 5];
      group + rest
  }

  /** The arguments `update_outputs` passes to `xrandr` for a workspace. */
  function UpdateOutputsArgs(primary: string, secondaries: Option<map<MonitorPosition, string>>): (args: seq<string>)
    ensures secondaries.None? ==> args == ["--auto"]
    ensures secondaries.Some? ==> |args| == 4 + 5 * |secondaries.value|
    ensures secondaries.Some? ==> args[..4] == ["--output", primary, "--auto", "--primary"]
  {
    match secondaries
    case None => ["--auto"]
    case Some(m) => ["--output", primary, "--auto", "--primary"] + SecondaryArgs(m, IterationOrder(m), primary)
  }

  /** The `i`-th secondary group of an argument list. */
  function GroupAt(args: seq<string>, i: nat): seq<string>
    requires 4 + 5 * i + 5 <= |args|
  {
    args[4 + 5 * i..4 + 5 * i + 5]
  }

  /** The groups of the argument list walk the map in its iteration order. */
  lemma GroupsFollowIterationOrder(primary: string, m: map<MonitorPosition, string>, i: nat)
    requires i < |m|
    ensures GroupAt(UpdateOutputsArgs(primary, Some(m)), i)
            == OutputGroup(m[IterationOrder(m)[i]], IterationOrder(m)[i], primary)
  {
    var keys := IterationOrder(m);
    var tail := SecondaryArgs(m, keys, primary);
    var args := ["--output", primary, "--auto", "--primary"] + tail;
    assert UpdateOutputsArgs(primary, Some(m)) == args;
    assert args[4 + 5 * i..4 + 5 * i + 5] == tail[5 * i..5 * i + 5];
    assert tail[5 * i..5 * i + 5] == OutputGroup(m[keys[i]], keys[i], primary);
  }

  /**
   * Each position of the map gets exactly one group: the group that puts its
   * monitor on that side of the primary, and no other group uses that side.
   */
  lemma EachSecondaryHasOneGroup(primary: string, m: map<MonitorPosition, string>, k: MonitorPosition)
    requires k in m
    ensures var args := UpdateOutputsArgs(primary, Some(m));
      && (exists i :: 0 <= i < |m| && GroupAt(args, i) == OutputGroup(m[k], k, primary))
      && (forall i :: 0 <= i < |m| && GroupAt(args, i)[3] == PositionFlag(k) ==>
            GroupAt(args, i) == OutputGroup(m[k], k, primary))
  {
    var args := UpdateOutputsArgs(primary, Some(m));
    var keys := IterationOrder(m);
    forall i | 0 <= i < |m| ensures GroupAt(args, i) == OutputGroup(m[keys[i]], keys[i], primary) {
      GroupsFollowIterationOrder(primary, m, i);
    }
    var i := IndexIn(keys, k);
    assert GroupAt(args, i) == OutputGroup(m[k], k, primary);
  }

  /** Every secondary group is an `--output` group anchored on the primary. */
  lemma GroupsAnchorOnPrimary(primary: string, m: map<MonitorPosition, string>, i: nat)
    requires i < |m|
    ensures GroupAt(UpdateOutputsArgs(primary, Some(m)), i)[0] == "--output"
    ensures GroupAt(UpdateOutputsArgs(primary, Some(m)), i)[2] == "--auto"
    ensures GroupAt(UpdateOutputsArgs(primary, Some(m)), i)[4] == primary
  {
    GroupsFollowIterationOrder(primary, m, i);
  }

  /**
   * The monitors named in the groups are the workspace's secondary monitor
   * list, in the same order: both walk the same map.
   */
  lemma GroupNamesAreSecondaryList(workspace: Workspace, i: nat)
    requires workspace.secondaryMonitors.Some? && i < |workspace.secondaryMonitors.value|
    ensures GroupAt(UpdateOutputsArgs(workspace.primaryMonitor, workspace.secondaryMonitors), i)[1]
            == SecondaryMonitorList(workspace).value[i]
  {
    GroupsFollowIterationOrder(workspace.primaryMonitor, workspace.secondaryMonitors.value, i);
  }

  /** A workspace with one monitor left of the primary gives the documented `xrandr` command line. */
  lemma UpdateOutputsExample()
    ensures UpdateOutputsArgs("M1", Some(map[LeftOf := "M2"]))
            == ["--output", "M1", "--auto", "--primary", "--output", "M2", "--auto", "--left-of", "M1"]
  {
    var m := map[LeftOf := "M2"];
    assert IterationOrder(m) == [LeftOf];
  }

  /** A workspace with one monitor right of the primary. */
  lemma UpdateOutputsRightOfExample()
    ensures UpdateOutputsArgs("M1", Some(map[RightOf := "M2"]))
            == ["--output", "M1", "--auto", "--primary", "--output", "M2", "--auto", "--right-of", "M1"]
  {
    var m := map[RightOf := "M2"];
    assert IterationOrder(m) == [RightOf];
  }
}
