/**
 * Workspace definitions and the resolver that picks the workspace matching
 * the detected monitors (src/config.rs).
 */
module Config {
  import opened Wrappers
  import opened Strings

  /** Where a secondary monitor sits relative to the primary one. */
  datatype MonitorPosition = RightOf | LeftOf

  /**
   * One display layout. `secondaryMonitors` absent means "any secondary
   * monitors"; present, it names the monitor wanted at each position.
   */
  datatype Workspace = Workspace(
    name: string,
    primaryMonitor: string,
    secondaryMonitors: Option<map<MonitorPosition, string>>)

  /** An unsigned 64-bit number of seconds. */
  type U64 = x: nat | x < 0x1_0000_0000_0000_0000

  /** The loaded settings: poll interval, ordered workspace catalog, optional switch scripts. */
  datatype Config = Config(
    reloadTime: U64,
    workspaces: seq<Workspace>,
    switchScripts: Option<seq<string>>)

  /** Why loading a workspace fails. */
  datatype LoadError = UnknownPosition(position: string)

  // ---------------------------------------------------------------------
  // Positions
  // ---------------------------------------------------------------------

  /** `MonitorPositions::get`: the configuration keyword of a position, case-sensitive. */
  function ParsePosition(position: string): (r: Result<MonitorPosition, ()>)
    ensures r == Ok(RightOf) <==> position == "rightOf"
    ensures r == Ok(LeftOf) <==> position == "leftOf"
    ensures r.Err? <==> position != "rightOf" && position != "leftOf"
  {
    match position
    case "rightOf" => Ok(RightOf)
    case "leftOf" => Ok(LeftOf)
    case _ => Err(())
  }

  /** The keyword a configuration file uses for a position. */
  function PositionKeyword(position: MonitorPosition): string
  {
    match position
    case RightOf => "rightOf"
    case LeftOf => "leftOf"
  }

  /** Parsing is the inverse of the keyword, in both directions. */
  lemma ParsePositionRoundTrip(position: MonitorPosition, keyword: string)
    ensures ParsePosition(PositionKeyword(position)) == Ok(position)
    ensures ParsePosition(keyword) == Ok(position) ==> PositionKeyword(position) == keyword
  {
  }

  /**
   * The order in which the positions of a secondary-monitor map are visited.
   * A `HashMap` gives no order; the model fixes declaration order, and every
   * property below that the source does not tie to an order is stated
   * without one.
   */
  function IterationOrder(m: map<MonitorPosition, string>): (keys: seq<MonitorPosition>)
    ensures forall k :: k in keys <==> k in m
    ensures forall i, j :: 0 <= i < j < |keys| ==> keys[i] != keys[j]
    ensures |keys| == |m|
  {
    KeysAreListed(m);
    (if RightOf in m then [RightOf] else []) + (if LeftOf in m then [LeftOf] else [])
  }

  /** A position map has one entry per position it lists in declaration order. */
  lemma KeysAreListed(m: map<MonitorPosition, string>)
    ensures forall k :: k in m ==> k == RightOf || k == LeftOf
    ensures |m| == (if RightOf in m then 1 else 0) + (if LeftOf in m then 1 else 0)
  {
    forall k | k in m ensures k == RightOf || k == LeftOf {
      match k
      case RightOf =>
      case LeftOf =>
    }
    if RightOf in m && LeftOf in m {
      assert m.Keys == {RightOf, LeftOf};
    } else if RightOf in m {
      assert m.Keys == {RightOf};
    } else if LeftOf in m {
      assert m.Keys == {LeftOf};
    } else {
      assert m.Keys == {};
    }
  }

  /** The monitor names of `m` listed along `keys`. */
  function NamesAlong(m: map<MonitorPosition, string>, keys: seq<MonitorPosition>): (names: seq<string>)
    requires forall k :: k in keys ==> k in m
    ensures |names| == |keys|
    ensures forall i :: 0 <= i < |keys| ==> names[i] == m[keys[i]]
  {
    if keys == [] then [] else [m[keys[0]]] + NamesAlong(m, keys[1..])
  }

  // ---------------------------------------------------------------------
  // Secondary monitor list and matching
  // ---------------------------------------------------------------------

  /** `WorkSpace::get_secondary_monitor_list`: the monitor names of the secondary map, one per position. */
  function SecondaryMonitorList(workspace: Workspace): (r: Option<seq<string>>)
    ensures r.None? <==> workspace.secondaryMonitors.None?
    ensures r.Some? ==> |r.value| == |workspace.secondaryMonitors.value|
    ensures r.Some? ==> forall k :: k in workspace.secondaryMonitors.value ==>
              workspace.secondaryMonitors.value[k] in r.value
    ensures r.Some? ==> forall name :: name in r.value ==> name in workspace.secondaryMonitors.value.Values
  {
    match workspace.secondaryMonitors
    case None => None
    case Some(m) =>
      var keys := IterationOrder(m);
      var names := NamesAlong(m, keys);
      assert forall k :: k in m ==> m[k] == names[IndexIn(keys, k)];
      Some(names)
  }

  /** Position of `k` in `keys`. */
  function IndexIn(keys: seq<MonitorPosition>, k: MonitorPosition): (i: nat)
    requires k in keys
    ensures i < |keys| && keys[i] == k
  {
    if keys[0] == k then 0 else 1 + IndexIn(keys[1..], k)
  }

  /** How many positions of `m` hold the monitor `name`. */
  function PositionsHolding(m: map<MonitorPosition, string>, name: string): nat
  {
    |set k | k in m && m[k] == name|
  }

  /** Counts the positions holding `name` one position at a time. */
  lemma PositionsHoldingByPosition(m: map<MonitorPosition, string>, name: string)
    ensures PositionsHolding(m, name) ==
      (if RightOf in m && m[RightOf] == name then 1 else 0) + (if LeftOf in m && m[LeftOf] == name then 1 else 0)
  {
    var holding := set k | k in m && m[k] == name;
    KeysAreListed(m);
    if RightOf in m && m[RightOf] == name && LeftOf in m && m[LeftOf] == name {
      assert holding == {RightOf, LeftOf};
    } else if RightOf in m && m[RightOf] == name {
      assert holding == {RightOf};
    } else if LeftOf in m && m[LeftOf] == name {
      assert holding == {LeftOf};
    } else {
      assert holding == {};
    }
  }

  /** The secondary monitor list holds each name as often as the map does: the map's values as a multiset. */
  lemma SecondaryMonitorListCounts(workspace: Workspace, name: string)
    requires workspace.secondaryMonitors.Some?
    ensures multiset(SecondaryMonitorList(workspace).value)[name]
            == PositionsHolding(workspace.secondaryMonitors.value, name)
  {
    var m := workspace.secondaryMonitors.value;
    PositionsHoldingByPosition(m, name);
    NamesInOrderCount(m, name);
  }

  /** Counts `name` in the names listed along the iteration order. */
  lemma NamesInOrderCount(m: map<MonitorPosition, string>, name: string)
    ensures multiset(NamesAlong(m, IterationOrder(m)))[name] ==
      (if RightOf in m && m[RightOf] == name then 1 else 0) + (if LeftOf in m && m[LeftOf] == name then 1 else 0)
  {
    var keys := IterationOrder(m);
    var names := NamesAlong(m, keys);
    if RightOf in m && LeftOf in m {
      assert keys == [RightOf, LeftOf];
      assert names == [m[RightOf]] + [m[LeftOf]];
    } else if RightOf in m {
      assert keys == [RightOf];
      assert names == [m[RightOf]];
    } else if LeftOf in m {
      assert keys == [LeftOf];
      assert names == [m[LeftOf]];
    } else {
      assert names == [];
    }
  }

  /** The source's `fold(true, |a, m| a && detected.contains(m))`. */
  function FoldContained(acc: bool, names: seq<string>, detected: seq<string>): (r: bool)
    ensures r ==> acc
  {
    if names == [] then acc
    else FoldContained(acc && names[0] in detected, names[1..], detected)
  }

  /** The fold holds exactly when it starts true and every name is among the detected ones. */
  lemma {:induction false} FoldContainedIsContainment(acc: bool, names: seq<string>, detected: seq<string>)
    ensures FoldContained(acc, names, detected) <==> acc && forall n :: n in names ==> n in detected
  {
    if names != [] {
      FoldContainedIsContainment(acc && names[0] in detected, names[1..], detected);
      assert forall n :: n in names ==> n == names[0] || n in names[1..];
    }
  }

  /** The test one iteration of `WorkSpace::get` applies to a workspace. */
  predicate Matches(workspace: Workspace, primary: string, secondaries: seq<string>)
    ensures Matches(workspace, primary, secondaries) ==> workspace.primaryMonitor == primary
  {
    && workspace.primaryMonitor == primary
    && match SecondaryMonitorList(workspace)
       case None => true
       case Some(monitors) => FoldContained(true, monitors, secondaries)
  }

  /**
   * A workspace matches when its primary is the detected one and either it
   * names no secondaries or every secondary it names was detected.
   */
  lemma MatchesIsSubsetTest(workspace: Workspace, primary: string, secondaries: seq<string>)
    ensures Matches(workspace, primary, secondaries) <==>
      && workspace.primaryMonitor == primary
      && (|| workspace.secondaryMonitors.None?
          || forall k :: k in workspace.secondaryMonitors.value ==>
               workspace.secondaryMonitors.value[k] in secondaries)
  {
    if workspace.secondaryMonitors.Some? {
      FoldContainedIsContainment(true, SecondaryMonitorList(workspace).value, secondaries);
    }
  }

  /** Matching ignores the order of the detected secondaries and tolerates extra ones. */
  lemma MatchesIgnoresOrderAndExtras(workspace: Workspace, primary: string, secondaries: seq<string>, more: seq<string>)
    requires forall x :: x in secondaries ==> x in more
    ensures Matches(workspace, primary, secondaries) ==> Matches(workspace, primary, more)
  {
    MatchesIsSubsetTest(workspace, primary, secondaries);
    MatchesIsSubsetTest(workspace, primary, more);
  }

  /** A workspace without secondaries matches whatever secondaries are detected. */
  lemma NoSecondariesMatchesAny(workspace: Workspace, secondaries: seq<string>)
    requires workspace.secondaryMonitors.None?
    ensures Matches(workspace, workspace.primaryMonitor, secondaries)
  {
  }

  // ---------------------------------------------------------------------
  // The resolver
  // ---------------------------------------------------------------------

  /** `WorkSpace::get`: the first workspace of the catalog, in order, that matches. */
  function Get(workspaces: seq<Workspace>, primary: string, secondaries: seq<string>): (r: Option<Workspace>)
    ensures r.Some? ==> r.value in workspaces && Matches(r.value, primary, secondaries)
    ensures r.Some? ==> r.value.primaryMonitor == primary
    ensures r.None? <==> forall i :: 0 <= i < |workspaces| ==> !Matches(workspaces[i], primary, secondaries)
  {
    if workspaces == [] then None
    else if Matches(workspaces[0], primary, secondaries) then Some(workspaces[0])
    else Get(workspaces[1..], primary, secondaries)
  }

  /** When entry `i` is the first that matches, `Get` returns it and no later entry. */
  lemma {:induction false} GetReturnsFirstMatch(workspaces: seq<Workspace>, primary: string, secondaries: seq<string>, i: nat)
    requires i < |workspaces| && Matches(workspaces[i], primary, secondaries)
    requires forall j :: 0 <= j < i ==> !Matches(workspaces[j], primary, secondaries)
    ensures Get(workspaces, primary, secondaries) == Some(workspaces[i])
  {
    if i > 0 {
      GetReturnsFirstMatch(workspaces[1..], primary, secondaries, i - 1);
    }
  }

  /** Catalog order is priority: a match in the front part hides everything behind it. */
  lemma {:induction false} GetPrefersEarlier(front: seq<Workspace>, back: seq<Workspace>, primary: string, secondaries: seq<string>)
    ensures Get(front + back, primary, secondaries) ==
      if Get(front, primary, secondaries).Some? then Get(front, primary, secondaries)
      else Get(back, primary, secondaries)
  {
    if front != [] {
      assert (front + back)[1..] == front[1..] + back;
      GetPrefersEarlier(front[1..], back, primary, secondaries);
    } else {
      assert front + back == back;
    }
  }

  /**
   * A dual-monitor workspace listed before a single-monitor one with the same
   * primary wins when its secondary is present; an unknown primary matches nothing.
   */
  lemma ResolverExamples()
    ensures
      var dual := Workspace("dual", "M1", Some(map[LeftOf := "M2"]));
      var single := Workspace("single", "M1", None);
      && Get([dual, single], "M1", ["M2"]) == Some(dual)
      && Get([dual, single], "M1", []) == Some(single)
      && Get([dual, single], "M3", []) == None
  {
    var dual := Workspace("dual", "M1", Some(map[LeftOf := "M2"]));
    MatchesIsSubsetTest(dual, "M1", ["M2"]);
    MatchesIsSubsetTest(dual, "M1", []);
  }

  // ---------------------------------------------------------------------
  // Loading a workspace
  // ---------------------------------------------------------------------

  /** Entry `i` is the last one in `entries` for its position. */
  predicate IsLastFor(entries: seq<(MonitorPosition, string)>, i: nat)
    requires i < |entries|
  {
    forall j :: i < j < |entries| ==> entries[j].0 != entries[i].0
  }

  /** The positions that occur in `entries`. */
  function PositionsOf(entries: seq<(MonitorPosition, string)>): set<MonitorPosition>
  {
    set i | 0 <= i < |entries| :: entries[i].0
  }

  /** `collect()` of (position, name) pairs into a map, inserting them in order: every position is kept. */
  function CollectPositions(entries: seq<(MonitorPosition, string)>): (m: map<MonitorPosition, string>)
    ensures m.Keys == PositionsOf(entries)
  {
    if entries == [] then map[]
    else
      var last := entries[|entries| - 1];
      var front := entries[..|entries| - 1];
      PositionsOfSnoc(front, last);
      assert front + [last] == entries;
      CollectPositions(front)[last.0 := last.1]
  }

  /** Adding an entry at the end adds its position. */
  lemma PositionsOfSnoc(front: seq<(MonitorPosition, string)>, last: (MonitorPosition, string))
    ensures PositionsOf(front + [last]) == PositionsOf(front) + {last.0}
  {
    var entries := front + [last];
    assert entries[|front|] == last;
    forall k | k in PositionsOf(front) ensures k in PositionsOf(entries) {
      var i :| 0 <= i < |front| && front[i].0 == k;
      assert entries[i] == front[i];
    }
  }

  /** For a duplicated position, the last entry wins. */
  lemma {:induction false} CollectPositionsLastWins(entries: seq<(MonitorPosition, string)>, i: nat)
    requires i < |entries| && IsLastFor(entries, i)
    ensures CollectPositions(entries)[entries[i].0] == entries[i].1
  {
    var n := |entries|;
    var front := entries[..n - 1];
    assert entries[i].0 in CollectPositions(entries) by {
      assert entries[i].0 in PositionsOf(entries);
    }
    if i < n - 1 {
      assert entries[n - 1].0 != entries[i].0;
      assert front[i] == entries[i];
      assert IsLastFor(front, i) by {
        forall j | i < j < |front| ensures front[j].0 != front[i].0 {
          assert front[j] == entries[j];
        }
      }
      CollectPositionsLastWins(front, i);
    }
  }

  /** Parses the position keyword of each (position, monitor-name) pair, failing on the first bad one. */
  function ParseSecondaries(raw: seq<(string, string)>): (r: Result<seq<(MonitorPosition, string)>, LoadError>)
    ensures r.Ok? <==> forall i :: 0 <= i < |raw| ==> ParsePosition(raw[i].0).Ok?
    ensures r.Ok? ==> |r.value| == |raw|
    ensures r.Ok? ==> forall i :: 0 <= i < |raw| ==>
              r.value[i] == (ParsePosition(raw[i].0).value, raw[i].1)
    ensures r.Err? ==> exists i :: (0 <= i < |raw| && ParsePosition(raw[i].0).Err?
              && r.error == UnknownPosition(raw[i].0)
              && forall j :: 0 <= j < i ==> ParsePosition(raw[j].0).Ok?)
  {
    if raw == [] then Ok([])
    else match ParsePosition(raw[0].0)
      case Err(_) => Err(UnknownPosition(raw[0].0))
      case Ok(position) =>
        match ParseSecondaries(raw[1..])
        case Err(e) =>
          var i :| 0 <= i < |raw| - 1 && ParsePosition(raw[1..][i].0).Err?
            && e == UnknownPosition(raw[1..][i].0)
            && forall j :: 0 <= j < i ==> ParsePosition(raw[1..][j].0).Ok?;
          assert forall j :: 0 <= j < i + 1 ==> ParsePosition(raw[j].0).Ok? by {
            forall j | 0 < j < i + 1 ensures ParsePosition(raw[j].0).Ok? {
              assert raw[j] == raw[1..][j - 1];
            }
          }
          Err(e)
        case Ok(rest) => Ok([(position, raw[0].1)] + rest)
  }

  /**
   * `WorkSpace::create` once the document fields are read: `"auto"` in the
   * primary is replaced by the detected primary, and the secondary pairs are
   * collected into a position map; an unknown position fails the load.
   */
  function CreateWorkspace(name: string, primaryMonitor: string, secondaryMonitors: Option<seq<(string, string)>>,
                           detectedPrimary: string): (r: Result<Workspace, LoadError>)
    ensures r.Ok? <==> (secondaryMonitors.None? ||
              forall i :: 0 <= i < |secondaryMonitors.value| ==> ParsePosition(secondaryMonitors.value[i].0).Ok?)
    ensures r.Ok? ==> r.value.name == name
    ensures r.Ok? ==> r.value.primaryMonitor == ReplaceAll(primaryMonitor, "auto", detectedPrimary)
    ensures r.Ok? ==> (r.value.secondaryMonitors.None? <==> secondaryMonitors.None?)
    ensures r.Ok? && secondaryMonitors.Some? ==>
              var entries := ParseSecondaries(secondaryMonitors.value).value;
              && r.value.secondaryMonitors == Some(CollectPositions(entries))
              && r.value.secondaryMonitors.value.Keys == PositionsOf(entries)
              && forall i :: 0 <= i < |entries| && IsLastFor(entries, i) ==>
                   r.value.secondaryMonitors.value[entries[i].0] == entries[i].1
  {
    var primary := ReplaceAll(primaryMonitor, "auto", detectedPrimary);
    match secondaryMonitors
    case None => Ok(Workspace(name, primary, None))
    case Some(raw) =>
      match ParseSecondaries(raw)
      case Err(e) => Err(e)
      case Ok(entries) =>
        CollectedEntriesLastWin(entries);
        Ok(Workspace(name, primary, Some(CollectPositions(entries))))
  }

  /** Every position of the collected map holds the monitor of its last entry. */
  lemma CollectedEntriesLastWin(entries: seq<(MonitorPosition, string)>)
    ensures forall i :: 0 <= i < |entries| && IsLastFor(entries, i) ==>
              CollectPositions(entries)[entries[i].0] == entries[i].1
  {
    forall i | 0 <= i < |entries| && IsLastFor(entries, i)
      ensures CollectPositions(entries)[entries[i].0] == entries[i].1
    {
      CollectPositionsLastWins(entries, i);
    }
  }

  /** Of two entries for the same position, the later one is kept. */
  lemma DuplicatePositionLastWins()
    ensures CreateWorkspace("w", "M1", Some([("leftOf", "A"), ("leftOf", "B")]), "M1")
            == Ok(Workspace("w", "M1", Some(map[LeftOf := "B"])))
  {
    var raw := [("leftOf", "A"), ("leftOf", "B")];
    assert raw[0].0 == "leftOf" && raw[1].0 == "leftOf";
    assert forall i :: 0 <= i < |raw| ==> ParsePosition(raw[i].0) == Ok(LeftOf);
    var parsed := ParseSecondaries(raw);
    assert parsed.Ok? && |parsed.value| == 2;
    assert parsed.value[0] == (LeftOf, "A") && parsed.value[1] == (LeftOf, "B");
    assert parsed.value == [(LeftOf, "A"), (LeftOf, "B")];
    var entries := [(LeftOf, "A"), (LeftOf, "B")];
    assert entries[..1] == [(LeftOf, "A")];
    assert IsLastFor(entries, 1);
    CollectPositionsLastWins(entries, 1);
    assert PositionsOf(entries) == {LeftOf};
    assert CollectPositions(entries) == map[LeftOf := "B"];
    MissingCharNotContained("M1", "auto", 0);
    ReplaceAllWithoutMatch("M1", "auto", "M1");
  }

  /**
   * The `"auto"` placeholder is a substring replacement, not an equality test:
   * `"auto"` and `"my-auto"` get the detected monitor, and a name without
   * `"auto"` is kept.
   */
  lemma AutoSubstitutionExamples()
    ensures ReplaceAll("auto", "auto", "M1") == "M1"
    ensures ReplaceAll("my-auto", "auto", "M1") == "my-M1"
    ensures ReplaceAll("HDMI-1", "auto", "M1") == "HDMI-1"
  {
    // No "auto" ends before the occurrence: "aut" and "my-aut" lack its 'o'.
    MissingCharNotContained([] + "auto"[..3], "auto", 3);
    ReplaceAllFirst([], [], "auto", "M1");
    assert [] + "auto" + [] == "auto" && [] + "M1" + ReplaceAll([], "auto", "M1") == "M1";
    MissingCharNotContained("my-" + "auto"[..3], "auto", 3);
    ReplaceAllFirst("my-", [], "auto", "M1");
    assert "my-" + "auto" + [] == "my-auto" && "my-" + "M1" + ReplaceAll([], "auto", "M1") == "my-M1";
    MissingCharNotContained("HDMI-1", "auto", 0);
    ReplaceAllWithoutMatch("HDMI-1", "auto", "M1");
  }

  /** A workspace whose primary is `"auto"` loads with the detected monitor as its primary. */
  lemma AutoPrimaryExample()
    ensures CreateWorkspace("w", "auto", None, "M1") == Ok(Workspace("w", "M1", None))
  {
    AutoSubstitutionExamples();
  }
}
