/** The two sub-commands, `killall` and `launch`, as traces of the steps they
    take. Every external program they run (`sudo cgcreate`, `sudo cgset`,
    `sudo cgdelete`, `cgexec`) is an entry in the trace, and whether it exits
    with status 0 is decided by the oracle `toolOk`, applied to its argument
    vector. In `launch`, `check_call` raises on any other status, which ends
    the command; in `killall`, a failed `cgdelete` is caught and only clears
    `ready_for_unlink`. */
module Workflows {
  import opened Results
  import opened Text
  import opened SpeedParser
  import opened Naming
  import opened Ledger

  datatype Action =
    | Command(argv: seq<string>)                        // a subprocess call
    | Bookkeep(cgName: string, subsystems: seq<string>) // `bookkeep_created_cg`
    | KillTasks(cgName: string)                         // `kill_tasks`, not modelled further

  // ---------------------------------------------------------------------------
  // killall

  function DeleteArgv(e: Entry): seq<string> {
    ["sudo", "cgdelete", CgHandle(e.cgname, e.subsystems)]
  }

  /** The groups whose `cgdelete` exits with status 0. */
  function Deleted(items: seq<Entry>, toolOk: seq<string> -> bool): set<string> {
    set i | 0 <= i < |items| && toolOk(DeleteArgv(items[i])) :: items[i].cgname
  }

  lemma DeletedCons(items: seq<Entry>, toolOk: seq<string> -> bool)
    requires |items| > 0
    ensures Deleted(items, toolOk)
      == (if toolOk(DeleteArgv(items[0])) then {items[0].cgname} else {}) + Deleted(items[1..], toolOk)
  {
    var rest := Deleted(items[1..], toolOk);
    forall g | g in rest ensures g in Deleted(items, toolOk) {
      var i :| 0 <= i < |items| - 1 && toolOk(DeleteArgv(items[1..][i])) && items[1..][i].cgname == g;
      assert items[i + 1] == items[1..][i];
    }
    forall g | g in Deleted(items, toolOk) && g != items[0].cgname ensures g in rest {
      var i :| 0 <= i < |items| && toolOk(DeleteArgv(items[i])) && items[i].cgname == g;
      assert items[1..][i - 1] == items[i];
    }
  }

  datatype Reclaimed = Reclaimed(ledger: Ledger, readyForUnlink: bool, actions: seq<Action>)

  /** The loop of `cmd_killall` over the dict's items: kill the group's tasks,
      run `cgdelete`, and on success delete the group's rows and its
      `created_cgs` row; any failure clears `ready_for_unlink`. */
  function Reclaim(l: Ledger, items: seq<Entry>, toolOk: seq<string> -> bool): (r: Reclaimed)
    ensures r.readyForUnlink <==> forall i | 0 <= i < |items| :: toolOk(DeleteArgv(items[i]))
    ensures r.ledger.createdCgs == l.createdCgs - Deleted(items, toolOk)
    ensures |r.actions| == 2 * |items|
    decreases |items|
  {
    if |items| == 0 then Reclaimed(l, true, [])
    else
      var e := items[0];
      var ok := toolOk(DeleteArgv(e));
      var rest := Reclaim(if ok then RemoveGroup(l, e.cgname) else l, items[1..], toolOk);
      DeletedCons(items, toolOk);
      Reclaimed(rest.ledger, ok && rest.readyForUnlink, [KillTasks(e.cgname), Command(DeleteArgv(e))] + rest.actions)
  }

  /** For each item in dict order, the loop kills the group's tasks and then
      runs its `cgdelete`, whatever happened to the items before it. */
  lemma {:induction false} ReclaimActions(l: Ledger, items: seq<Entry>, toolOk: seq<string> -> bool, i: nat)
    requires i < |items|
    ensures Reclaim(l, items, toolOk).actions[2 * i] == KillTasks(items[i].cgname)
    ensures Reclaim(l, items, toolOk).actions[2 * i + 1] == Command(DeleteArgv(items[i]))
    decreases |items|
  {
    if i > 0 {
      var e := items[0];
      var l1 := if toolOk(DeleteArgv(e)) then RemoveGroup(l, e.cgname) else l;
      ReclaimActions(l1, items[1..], toolOk, i - 1);
      var rest := Reclaim(l1, items[1..], toolOk).actions;
      assert Reclaim(l, items, toolOk).actions == [KillTasks(e.cgname), Command(DeleteArgv(e))] + rest;
      assert 2 * i == 2 * (i - 1) + 2;
      assert items[1..][i - 1] == items[i];
    }
  }

  /** `cmd_killall`: read the dict back, then run the loop over it. */
  function CmdKillall(l: Ledger, toolOk: seq<string> -> bool): (r: Reclaimed)
    ensures r.ledger.createdCgs <= l.createdCgs
  {
    Reclaim(l, GetCg2Subsystems(l), toolOk)
  }

  /** What the next run finds: `os.unlink` removes the database file, and the
      next connection creates an empty one. */
  function Persisted(r: Reclaimed): Ledger {
    if r.readyForUnlink then Empty else r.ledger
  }

  /** The loop deletes exactly the rows of the groups whose `cgdelete` succeeded. */
  lemma {:induction false} ReclaimRows(l: Ledger, items: seq<Entry>, toolOk: seq<string> -> bool, g: string)
    ensures RowsOf(Reclaim(l, items, toolOk).ledger.subsystems, g)
      == if g in Deleted(items, toolOk) then [] else RowsOf(l.subsystems, g)
    decreases |items|
  {
    if |items| > 0 {
      var e := items[0];
      var ok := toolOk(DeleteArgv(e));
      var l1 := if ok then RemoveGroup(l, e.cgname) else l;
      ReclaimRows(l1, items[1..], toolOk, g);
      DeletedCons(items, toolOk);
      if ok {
        RowsOfWithout(l.subsystems, e.cgname, g);
      }
    }
  }

  /** The loop keeps the database in shape. */
  lemma {:induction false} ReclaimKeepsValid(l: Ledger, items: seq<Entry>, toolOk: seq<string> -> bool)
    requires Valid(l)
    ensures Valid(Reclaim(l, items, toolOk).ledger)
    decreases |items|
  {
    if |items| > 0 {
      var e := items[0];
      var ok := toolOk(DeleteArgv(e));
      if ok {
        RemoveKeepsValid(l, e.cgname);
        ReclaimKeepsValid(RemoveGroup(l, e.cgname), items[1..], toolOk);
      } else {
        ReclaimKeepsValid(l, items[1..], toolOk);
      }
    }
  }

  /** In a dict whose keys are ascending, a key's entry is the one at its position. */
  lemma {:induction false} LookupAt(d: seq<Entry>, i: nat)
    requires Ascending(Names(d)) && i < |d|
    ensures Lookup(d, d[i].cgname) == Some(d[i].subsystems)
  {
    if i > 0 {
      assert Names(d)[0] == d[0].cgname && Names(d)[i] == d[i].cgname;
      if d[0].cgname == d[i].cgname {
        StrLtIrreflexive(d[0].cgname);
      }
      assert Ascending(Names(d[1..])) by {
        forall a, b | 0 <= a < b < |d| - 1 ensures StrLt(Names(d[1..])[a], Names(d[1..])[b]) {
          assert Names(d[1..])[a] == Names(d)[a + 1] && Names(d[1..])[b] == Names(d)[b + 1];
        }
      }
      LookupAt(d[1..], i - 1);
    }
  }

  /** `cmd_killall` deletes a group exactly when the group has rows and the
      `cgdelete` of its handle succeeds. */
  lemma KillallDeletes(l: Ledger, toolOk: seq<string> -> bool, g: string)
    ensures g in Deleted(GetCg2Subsystems(l), toolOk)
      <==> match Lookup(GetCg2Subsystems(l), g)
           case Some(ss) => toolOk(DeleteArgv(Entry(g, ss)))
           case None => false
  {
    var d := GetCg2Subsystems(l);
    GetCg2SubsystemsKeys(l);
    LookupNames(d, g);
    if g in Deleted(d, toolOk) {
      var i :| 0 <= i < |d| && toolOk(DeleteArgv(d[i])) && d[i].cgname == g;
      LookupAt(d, i);
      assert Names(d)[i] == g;
    }
    if RowsOf(l.subsystems, g) != [] {
      var i :| 0 <= i < |d| && Names(d)[i] == g;
      LookupAt(d, i);
    }
  }

  /** Reading the database back after `cmd_killall` (before any unlink) shows
      every group whose delete failed as it was, and none whose delete succeeded. */
  lemma KillallReadBack(l: Ledger, toolOk: seq<string> -> bool, g: string)
    ensures Lookup(GetCg2Subsystems(CmdKillall(l, toolOk).ledger), g)
      == if g in Deleted(GetCg2Subsystems(l), toolOk) then None else Lookup(GetCg2Subsystems(l), g)
  {
    var r := CmdKillall(l, toolOk);
    ReclaimRows(l, GetCg2Subsystems(l), toolOk, g);
    GetCg2SubsystemsLookup(r.ledger, g);
    GetCg2SubsystemsLookup(l, g);
  }

  /** The database file is unlinked exactly when every subsystem row is gone. */
  lemma KillallReady(l: Ledger, toolOk: seq<string> -> bool)
    ensures CmdKillall(l, toolOk).readyForUnlink <==> CmdKillall(l, toolOk).ledger.subsystems == []
  {
    var d := GetCg2Subsystems(l);
    var r := CmdKillall(l, toolOk);
    GetCg2SubsystemsKeys(l);
    if r.readyForUnlink && r.ledger.subsystems != [] {
      var g := r.ledger.subsystems[0].ofcg;
      ReclaimRows(l, d, toolOk, g);
    }
    if !r.readyForUnlink {
      var i :| 0 <= i < |d| && !toolOk(DeleteArgv(d[i]));
      var g := d[i].cgname;
      assert Names(d)[i] == g;
      KillallDeletes(l, toolOk, g);
      LookupAt(d, i);
      ReclaimRows(l, d, toolOk, g);
      assert RowsOf(r.ledger.subsystems, g) != [];
    }
  }

  /** The next run finds an empty database exactly when every `cgdelete`
      succeeded; otherwise it finds the groups whose delete failed. */
  lemma KillallPersisted(l: Ledger, toolOk: seq<string> -> bool)
    ensures Persisted(CmdKillall(l, toolOk)) == Empty <==> CmdKillall(l, toolOk).readyForUnlink
  {
    KillallReady(l, toolOk);
  }

  // ---------------------------------------------------------------------------
  // launch

  const LaunchSubsystems: seq<string> := ["cpu"]
  /** The `--speed` default. */
  const DefaultSpeed: string := "10pct"
  /** `cpu.cfs_period_us`, in microseconds. */
  const Period: nat := 100000

  /** `int(100000 * speed_fraction)`: truncation, which is the floor for the
      non-negative fractions the parser yields. */
  function Quota(fraction: real): (q: nat)
    requires fraction >= 0.0
    ensures q as real <= Period as real * fraction < q as real + 1.0
  {
    (Period as real * fraction).Floor
  }

  function CreateArgv(cgName: string, owner: string): seq<string> {
    ["sudo", "cgcreate", "-a", owner, "-g", CgHandle(cgName, LaunchSubsystems), "-t", owner]
  }

  function PeriodArgv(cgName: string): seq<string> {
    ["sudo", "cgset", "-r", "cpu.cfs_period_us=100000", cgName]
  }

  function QuotaArgv(cgName: string, quota: nat): seq<string> {
    ["sudo", "cgset", "-r", "cpu.cfs_quota_us=" + NatToDecimal(quota), cgName]
  }

  function ExecArgv(cgName: string, afterSplit: seq<string>): seq<string> {
    ["cgexec", "-g", CgHandle(cgName, LaunchSubsystems)] + afterSplit
  }

  /** Every step `cmd_launch` takes when nothing fails. */
  function LaunchPlan(cgName: string, owner: string, quota: nat, afterSplit: seq<string>): seq<Action> {
    [ Command(CreateArgv(cgName, owner)), Bookkeep(cgName, LaunchSubsystems),
      Command(PeriodArgv(cgName)), Command(QuotaArgv(cgName, quota)),
      Command(ExecArgv(cgName, afterSplit)) ]
  }

  datatype LaunchFailure =
    | ToolFailed(argv: seq<string>)   // CalledProcessError
    | DuplicateGroup                  // IntegrityError from the bookkeeping insert
    | InvalidSpeed                    // ValueError from the speed parser

  datatype LaunchRun = LaunchRun(actions: seq<Action>, ledger: Ledger, failure: Option<LaunchFailure>)

  /** `cmd_launch`. The group name comes from the five alphabet indices
      `choices`; `owner` is the `user:group` of the caller. The speed is parsed
      only after the group is created and recorded. */
  function CmdLaunch(l: Ledger, speed: string, afterSplit: seq<string>, choices: seq<nat>,
                     owner: string, toolOk: seq<string> -> bool): (r: LaunchRun)
    requires ValidChoices(choices)
    ensures r.actions <= LaunchPlan(CreateCgName(choices), owner,
                                    match SpeedStrToFraction(speed) case Success(f) => Quota(f) case Failure(_) => 0,
                                    afterSplit)
    ensures |r.actions| >= 1
    ensures SpeedStrToFraction(speed).Failure? ==> |r.actions| <= 2
    ensures forall i | 0 <= i < |r.actions| - 1 :: r.actions[i].Command? ==> toolOk(r.actions[i].argv)
    ensures r.failure.None? ==> |r.actions| == 5 && toolOk(r.actions[4].argv)
    ensures r.failure == Some(DuplicateGroup) || r.failure == Some(InvalidSpeed) ==>
      r.actions == [Command(CreateArgv(CreateCgName(choices), owner)), Bookkeep(CreateCgName(choices), LaunchSubsystems)]
    ensures r.failure == Some(DuplicateGroup) <==> toolOk(CreateArgv(CreateCgName(choices), owner)) && CreateCgName(choices) in l.createdCgs
    ensures r.failure == Some(InvalidSpeed)
      <==> toolOk(CreateArgv(CreateCgName(choices), owner)) && CreateCgName(choices) !in l.createdCgs
           && SpeedStrToFraction(speed).Failure?
    ensures r.failure.Some? && r.failure.value.ToolFailed? ==>
      !toolOk(r.failure.value.argv) && r.actions[|r.actions| - 1] == Command(r.failure.value.argv)
    ensures r.ledger == if toolOk(CreateArgv(CreateCgName(choices), owner)) && CreateCgName(choices) !in l.createdCgs
                        then BookkeepCreatedCg(l, CreateCgName(choices), LaunchSubsystems).value
                        else l
  {
    var name := CreateCgName(choices);
    var create := CreateArgv(name, owner);
    if !toolOk(create) then LaunchRun([Command(create)], l, Some(ToolFailed(create)))
    else
      var recorded := [Command(create), Bookkeep(name, LaunchSubsystems)];
      match BookkeepCreatedCg(l, name, LaunchSubsystems)
      case Failure(_) => LaunchRun(recorded, l, Some(DuplicateGroup))
      case Success(l') =>
        match SpeedStrToFraction(speed)
        case Failure(_) => LaunchRun(recorded, l', Some(InvalidSpeed))
        case Success(f) =>
          var plan := LaunchPlan(name, owner, Quota(f), afterSplit);
          if !toolOk(plan[2].argv) then LaunchRun(plan[..3], l', Some(ToolFailed(plan[2].argv)))
          else if !toolOk(plan[3].argv) then LaunchRun(plan[..4], l', Some(ToolFailed(plan[3].argv)))
          else if !toolOk(plan[4].argv) then LaunchRun(plan, l', Some(ToolFailed(plan[4].argv)))
          else LaunchRun(plan, l', None)
  }

  /** Once `cgcreate` succeeds on a fresh name the group stays recorded, with
      subsystem list `["cpu"]`, whatever fails afterwards (an unparsable speed
      included); every other group reads back as before. */
  lemma LaunchLeavesGroup(l: Ledger, speed: string, afterSplit: seq<string>, choices: seq<nat>,
                          owner: string, toolOk: seq<string> -> bool, h: string)
    requires ValidChoices(choices) && Valid(l)
    requires toolOk(CreateArgv(CreateCgName(choices), owner)) && CreateCgName(choices) !in l.createdCgs
    ensures CreateCgName(choices) in CmdLaunch(l, speed, afterSplit, choices, owner, toolOk).ledger.createdCgs
    ensures Lookup(GetCg2Subsystems(CmdLaunch(l, speed, afterSplit, choices, owner, toolOk).ledger), h)
      == if h == CreateCgName(choices) then Some(LaunchSubsystems) else Lookup(GetCg2Subsystems(l), h)
  {
    RecordRoundTrip(l, CreateCgName(choices), LaunchSubsystems, h);
  }

  /** `cmd_launch` keeps the database in shape. */
  lemma LaunchKeepsValid(l: Ledger, speed: string, afterSplit: seq<string>, choices: seq<nat>,
                         owner: string, toolOk: seq<string> -> bool)
    requires ValidChoices(choices) && Valid(l)
    ensures Valid(CmdLaunch(l, speed, afterSplit, choices, owner, toolOk).ledger)
  {
    if toolOk(CreateArgv(CreateCgName(choices), owner)) && CreateCgName(choices) !in l.createdCgs {
      RecordKeepsValid(l, CreateCgName(choices), LaunchSubsystems);
    }
  }

  /** A speed of at most 100% never asks for more CPU time than the period. */
  lemma QuotaWithinPeriod(fraction: real)
    requires 0.0 <= fraction <= 1.0
    ensures Quota(fraction) <= Period
  {
  }

  /** The quotas of the default speed, a quarter, and full speed. */
  lemma QuotaExamples()
    ensures SpeedStrToFraction(DefaultSpeed) == Success(0.1) && Quota(0.1) == 10000
    ensures SpeedStrToFraction("25%") == Success(0.25) && Quota(0.25) == 25000
    ensures Quota(1.0) == Period
  {
    PercentExamples();
  }

  /** The quota command line for the default speed. */
  lemma DefaultQuotaArgv(cgName: string)
    ensures QuotaArgv(cgName, 10000) == ["sudo", "cgset", "-r", "cpu.cfs_quota_us=10000", cgName]
  {
    assert NatToDecimal(1) == "1";
    NatToDecimalTimesTen(1);
    assert NatToDecimal(10) == "10";
    NatToDecimalTimesTen(10);
    assert NatToDecimal(100) == "100";
    NatToDecimalTimesTen(100);
    assert NatToDecimal(1000) == "1000";
    NatToDecimalTimesTen(1000);
    assert NatToDecimal(10000) == "10000";
    assert "cpu.cfs_quota_us=" + "10000" == "cpu.cfs_quota_us=10000";
  }

  /** `killall` on a database holding one `cpu` group, with every tool
      succeeding: one kill, one delete by handle, and the file is unlinked. */
  lemma KillallOneGroup(name: string, toolOk: seq<string> -> bool)
    requires forall argv :: toolOk(argv)
    ensures var k := CmdKillall(Ledger({name}, [Row("cpu", name, 0)]), toolOk);
      && k.actions == [KillTasks(name), Command(["sudo", "cgdelete", "cpu:/" + name])]
      && k.readyForUnlink
      && Persisted(k) == Empty
  {
    var l := Ledger({name}, [Row("cpu", name, 0)]);
    assert SortRows(l.subsystems) == [Row("cpu", name, 0)];
    assert Collect([Row("cpu", name, 0)]) == SetdefaultAppend([], name, "cpu");
    var d := GetCg2Subsystems(l);
    assert d == [Entry(name, ["cpu"])];
    CpuHandle(name);
    assert CmdKillall(l, toolOk).actions == [KillTasks(name), Command(DeleteArgv(d[0]))];
  }

  /** With a fresh name, a parsable speed and every tool succeeding, `cmd_launch`
      runs every step of the plan and records the group. */
  lemma LaunchSucceeds(l: Ledger, speed: string, afterSplit: seq<string>, choices: seq<nat>,
                       owner: string, toolOk: seq<string> -> bool)
    requires ValidChoices(choices) && CreateCgName(choices) !in l.createdCgs
    requires SpeedStrToFraction(speed).Success?
    requires forall argv :: toolOk(argv)
    ensures var run := CmdLaunch(l, speed, afterSplit, choices, owner, toolOk);
      && run.failure.None?
      && run.actions == LaunchPlan(CreateCgName(choices), owner, Quota(SpeedStrToFraction(speed).value), afterSplit)
      && run.ledger == Ledger(l.createdCgs + {CreateCgName(choices)}, l.subsystems + [Row("cpu", CreateCgName(choices), 0)])
  {
    assert RowsFor(CreateCgName(choices), LaunchSubsystems) == [Row("cpu", CreateCgName(choices), 0)];
  }

  /** From an empty database with every tool succeeding: `launch --speed 25%`
      runs all five steps with quota 25000 and records one group with `cpu`;
      a following `killall` kills its tasks, deletes it by handle, and unlinks
      the database, so the next run starts empty. */
  lemma LaunchThenKillall(afterSplit: seq<string>, choices: seq<nat>, owner: string, toolOk: seq<string> -> bool)
    requires ValidChoices(choices)
    requires forall argv :: toolOk(argv)
    ensures var run := CmdLaunch(Empty, "25%", afterSplit, choices, owner, toolOk);
      && run.failure.None?
      && run.actions == LaunchPlan(CreateCgName(choices), owner, 25000, afterSplit)
      && CmdKillall(run.ledger, toolOk).actions
         == [KillTasks(CreateCgName(choices)), Command(["sudo", "cgdelete", "cpu:/" + CreateCgName(choices)])]
      && Persisted(CmdKillall(run.ledger, toolOk)) == Empty
  {
    QuotaExamples();
    LaunchSucceeds(Empty, "25%", afterSplit, choices, owner, toolOk);
    assert Empty.subsystems + [Row("cpu", CreateCgName(choices), 0)] == [Row("cpu", CreateCgName(choices), 0)];
    KillallOneGroup(CreateCgName(choices), toolOk);
  }
}
