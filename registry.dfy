/** The installation registry (ficsitcli/wrapper.go and ficsitcli/installs.go):
    the metadata cache keyed by path, ficsit-cli's ordered installation list
    with its selected path, the game-running flag and the errors local
    discovery reported. ficsit-cli's own operations (`Save`, `Wipe`,
    `LockFile`, `apply`, adding to its list) are foreign code; each is a
    parameter that gives its outcome, and every save attempt and every
    frontend event is appended to an effect log. */
module Registry {
  import opened Common

  /** One entry of ficsit-cli's installation list. */
  datatype CliInstall = CliInstall(path: string, profile: string, vanilla: bool)

  /** What the registry does to the outside world, in order. */
  datatype Effect =
    | Saved                                // an `Installations.Save()` attempt
    | EmittedGlobals                       // the batch of events `EmitGlobals` sends
    | EmittedModsChange                    // "lockfileMods" and "manifestMods"
    | EmittedGameRunning(running: bool)    // "isGameRunning"
    | WipeAttempted(path: string)          // `Wipe()` called on an installation
    | Applied                              // ficsit-cli's `apply` ran

  /** An error of local discovery: `common.InstallFindError` carries a path. */
  datatype FindError = InstallFindError(path: string) | OtherFindError(message: string)

  /** What `getInstallsToApply` yields for one installation. */
  datatype TargetedInstall = TargetedInstall(targetName: string, path: string)

  /** A mod entry of a profile and of a lock file, reduced to a version. */
  datatype ProfileMod = ProfileMod(version: string, enabled: bool)
  datatype LockFile = LockFile(mods: map<string, string>)

  /** The process executables that count as the running game, with and
      without `.exe`. */
  const ExecutableNames: seq<string> := [
    "FactoryGame-Win64-Shipping.exe", "FactoryGame-Win64-Shipping",
    "FactoryGameSteam-Win64-Shipping.exe", "FactoryGameSteam-Win64-Shipping",
    "FactoryGameEGS-Win64-Shipping.exe", "FactoryGameEGS-Win64-Shipping"]

  const SteamLaunchUri: string := "steam://launch/1895860"

  // ---------------------------------------------------------------------
  // Validity and the filters built on it

  /** `isValidInstall`: stored, and either a custom installation or not
      known to be invalid. */
  predicate IsValid(metadata: map<string, InstallationMetadata>, path: string)
  {
    if path !in metadata then false
    else if metadata[path].info.Some? && metadata[path].info.value.launcher == CustomLauncher then true
    else metadata[path].state != Invalid
  }

  /** The three cases of validity. */
  lemma ValidityCases(metadata: map<string, InstallationMetadata>, path: string)
    ensures path !in metadata ==> !IsValid(metadata, path)
    ensures path in metadata && metadata[path].info.Some? && metadata[path].info.value.launcher == CustomLauncher
            ==> IsValid(metadata, path)
    ensures path in metadata && !(metadata[path].info.Some? && metadata[path].info.value.launcher == CustomLauncher)
            ==> (IsValid(metadata, path) <==> metadata[path].state != Invalid)
  {
  }

  /** Storing an entry decides validity at its own path only. */
  lemma StoreKeepsOtherPaths(metadata: map<string, InstallationMetadata>, p: string, m: InstallationMetadata, q: string)
    requires p != q
    ensures IsValid(metadata[p := m], q) == IsValid(metadata, q)
    ensures IsValid(metadata[p := m], p) == (m.state != Invalid || (m.info.Some? && m.info.value.launcher == CustomLauncher))
  {
  }

  /** The listed paths that are valid, in list order (`GetInstallations`). */
  function ValidPaths(metadata: map<string, InstallationMetadata>, installs: seq<CliInstall>): seq<string>
  {
    if installs == [] then []
    else if IsValid(metadata, installs[0].path) then [installs[0].path] + ValidPaths(metadata, installs[1..])
    else ValidPaths(metadata, installs[1..])
  }

  /** Exactly the valid listed paths, and no more of them than listed. */
  lemma {:induction false} ValidPathsMembers(metadata: map<string, InstallationMetadata>, installs: seq<CliInstall>, p: string)
    ensures |ValidPaths(metadata, installs)| <= |installs|
    ensures p in ValidPaths(metadata, installs)
            <==> IsValid(metadata, p) && exists i :: 0 <= i < |installs| && installs[i].path == p
  {
    if installs != [] {
      ValidPathsMembers(metadata, installs[1..], p);
      assert forall i :: 1 <= i < |installs| ==> installs[1..][i - 1] == installs[i];
      if p in ValidPaths(metadata, installs[1..]) {
        var i :| 0 <= i < |installs[1..]| && installs[1..][i].path == p;
        assert installs[i + 1].path == p;
      }
    }
  }

  /** Filtering a concatenation is concatenating the filtered parts, so the
      order of the list is kept. */
  lemma {:induction false} ValidPathsAppend(metadata: map<string, InstallationMetadata>, xs: seq<CliInstall>, ys: seq<CliInstall>)
    ensures ValidPaths(metadata, xs + ys) == ValidPaths(metadata, xs) + ValidPaths(metadata, ys)
  {
    if xs != [] {
      assert (xs + ys)[1..] == xs[1..] + ys;
      ValidPathsAppend(metadata, xs[1..], ys);
    } else {
      assert xs + ys == ys;
    }
  }

  /** The first valid path is the path of the first valid entry, and there
      is one exactly when the filter is not empty. */
  lemma {:induction false} FirstValidPath(metadata: map<string, InstallationMetadata>, installs: seq<CliInstall>)
    ensures ValidPaths(metadata, installs) == [] <==> forall j :: 0 <= j < |installs| ==> !IsValid(metadata, installs[j].path)
    ensures ValidPaths(metadata, installs) != [] ==>
      exists k :: 0 <= k < |installs| && installs[k].path == ValidPaths(metadata, installs)[0]
        && IsValid(metadata, installs[k].path)
        && forall j :: 0 <= j < k ==> !IsValid(metadata, installs[j].path)
  {
    if installs != [] && !IsValid(metadata, installs[0].path) {
      FirstValidPath(metadata, installs[1..]);
      assert forall j :: 1 <= j < |installs| ==> installs[1..][j - 1] == installs[j];
      if ValidPaths(metadata, installs) != [] {
        var k :| 0 <= k < |installs[1..]| && installs[1..][k].path == ValidPaths(metadata, installs[1..])[0]
          && IsValid(metadata, installs[1..][k].path)
          && forall j :: 0 <= j < k ==> !IsValid(metadata, installs[1..][j].path);
        assert installs[k + 1] == installs[1..][k];
        forall j | 0 <= j < k + 1 ensures !IsValid(metadata, installs[j].path) {
          if j > 0 { assert installs[j] == installs[1..][j - 1]; }
        }
      }
    }
  }

  /** The first entry with the given path: ficsit-cli's `GetInstallation`. */
  function FindInstall(installs: seq<CliInstall>, path: string): (r: Option<nat>)
    ensures r.Some? ==> r.value < |installs| && installs[r.value].path == path
    ensures r.Some? ==> forall j :: 0 <= j < r.value ==> installs[j].path != path
    ensures r.None? ==> forall j :: 0 <= j < |installs| ==> installs[j].path != path
  {
    if installs == [] then None
    else if installs[0].path == path then Some(0)
    else match FindInstall(installs[1..], path)
      case Some(i) => Some(i + 1)
      case None => None
  }

  /** Changing the vanilla flag of an entry does not change which entry a
      path finds. */
  lemma {:induction false} FindIgnoresVanilla(installs: seq<CliInstall>, k: nat, vanilla: bool, path: string)
    requires k < |installs|
    ensures FindInstall(installs[k := installs[k].(vanilla := vanilla)], path) == FindInstall(installs, path)
  {
    if installs != [] && installs[0].path != path && k > 0 {
      assert installs[k := installs[k].(vanilla := vanilla)][1..] == installs[1..][k - 1 := installs[k].(vanilla := vanilla)];
      FindIgnoresVanilla(installs[1..], k - 1, vanilla, path);
    }
  }

  /** The selected path is valid after an installation update exactly when
      the selection is valid or, if not, some listed path is. */
  predicate SelectionSettled(metadata: map<string, InstallationMetadata>, installs: seq<CliInstall>, before: string, after: string)
  {
    if IsValid(metadata, before) then after == before
    else if ValidPaths(metadata, installs) != [] then after == ValidPaths(metadata, installs)[0]
    else after == before
  }

  /** After settling, the selection is valid unless nothing listed is. */
  lemma SettledIsValid(metadata: map<string, InstallationMetadata>, installs: seq<CliInstall>, before: string, after: string)
    requires SelectionSettled(metadata, installs, before, after)
    ensures IsValid(metadata, after) <==>
      IsValid(metadata, before) || exists i :: 0 <= i < |installs| && IsValid(metadata, installs[i].path)
  {
    FirstValidPath(metadata, installs);
    if !IsValid(metadata, before) && ValidPaths(metadata, installs) != [] {
      ValidPathsMembers(metadata, installs, after);
    }
  }

  // ---------------------------------------------------------------------
  // Seeding, wiping and find errors

  /** `initInstallations`' loop: every listed path stored as unknown. */
  function Seeded(metadata: map<string, InstallationMetadata>, installs: seq<CliInstall>): map<string, InstallationMetadata>
    decreases installs
  {
    if installs == [] then metadata
    else Seeded(metadata[installs[0].path := InstallationMetadata(Unknown, None)], installs[1..])
  }

  /** Seeding stores `{Unknown, nil}` at every listed path, which is then
      valid, and leaves every other path as it was. */
  lemma {:induction false} SeededListed(metadata: map<string, InstallationMetadata>, installs: seq<CliInstall>, p: string)
    ensures (exists i :: 0 <= i < |installs| && installs[i].path == p) ==>
      p in Seeded(metadata, installs) && Seeded(metadata, installs)[p] == InstallationMetadata(Unknown, None)
      && IsValid(Seeded(metadata, installs), p)
    ensures (forall i :: 0 <= i < |installs| ==> installs[i].path != p) ==>
      (p in Seeded(metadata, installs) <==> p in metadata)
      && (p in metadata ==> Seeded(metadata, installs)[p] == metadata[p])
    decreases installs
  {
    if installs != [] {
      var next := metadata[installs[0].path := InstallationMetadata(Unknown, None)];
      SeededListed(next, installs[1..], p);
      assert forall i :: 1 <= i < |installs| ==> installs[1..][i - 1] == installs[i];
      if installs[0].path == p && !exists i :: 0 <= i < |installs[1..]| && installs[1..][i].path == p {
        assert forall i :: 0 <= i < |installs[1..]| ==> installs[1..][i].path != p;
      }
      if (exists i :: 0 <= i < |installs| && installs[i].path == p) && installs[0].path != p {
        var i :| 0 <= i < |installs| && installs[i].path == p;
        assert installs[1..][i - 1].path == p;
      }
    }
  }

  /** Whether `WipeMods` wipes an installation. */
  predicate WipeSelected(metadata: map<string, InstallationMetadata>, path: string, includeRemote: bool)
  {
    includeRemote || (path in metadata && metadata[path].info.Some? && metadata[path].info.value.location == Local)
  }

  /** The paths `WipeMods` wipes when nothing fails, in list order. */
  function WipeTargets(metadata: map<string, InstallationMetadata>, installs: seq<CliInstall>, includeRemote: bool): seq<string>
  {
    if installs == [] then []
    else if WipeSelected(metadata, installs[0].path, includeRemote)
    then [installs[0].path] + WipeTargets(metadata, installs[1..], includeRemote)
    else WipeTargets(metadata, installs[1..], includeRemote)
  }

  function Paths(installs: seq<CliInstall>): (r: seq<string>)
    ensures |r| == |installs| && forall i :: 0 <= i < |installs| ==> r[i] == installs[i].path
  {
    seq(|installs|, i requires 0 <= i < |installs| => installs[i].path)
  }

  /** With remote installations included every listed path is wiped;
      without, exactly those with local metadata. */
  lemma {:induction false} WipeTargetsRule(metadata: map<string, InstallationMetadata>, installs: seq<CliInstall>, p: string)
    ensures WipeTargets(metadata, installs, true) == Paths(installs)
    ensures p in WipeTargets(metadata, installs, false) <==>
      (exists i :: 0 <= i < |installs| && installs[i].path == p)
      && p in metadata && metadata[p].info.Some? && metadata[p].info.value.location == Local
  {
    if installs != [] {
      WipeTargetsRule(metadata, installs[1..], p);
      assert Paths(installs) == [installs[0].path] + Paths(installs[1..]);
      assert forall i :: 1 <= i < |installs| ==> installs[1..][i - 1] == installs[i];
      if p in WipeTargets(metadata, installs[1..], false) {
        var i :| 0 <= i < |installs[1..]| && installs[1..][i].path == p;
        assert installs[i + 1].path == p;
      }
    }
  }

  /** The log of a wipe, then of the rest. */
  lemma WipeLogCons(p: string, paths: seq<string>)
    ensures WipeLog([p] + paths) == [WipeAttempted(p)] + WipeLog(paths)
  {
    assert ([p] + paths)[1..] == paths;
  }

  /** One step of the wipe loop. */
  lemma WipeStep(metadata: map<string, InstallationMetadata>, installs: seq<CliInstall>, i: nat, includeRemote: bool)
    requires i < |installs|
    ensures WipeTargets(metadata, installs[i..], includeRemote)
            == (if WipeSelected(metadata, installs[i].path, includeRemote) then [installs[i].path] else [])
               + WipeTargets(metadata, installs[i + 1..], includeRemote)
  {
    assert installs[i..][1..] == installs[i + 1..];
  }

  /** The paths `Wipe()` is called on: up to and including the first that
      fails. */
  function WipeAttempts(targets: seq<string>, failing: map<string, Error>): (r: seq<string>)
    ensures |r| <= |targets|
  {
    if targets == [] then []
    else if targets[0] in failing then [targets[0]]
    else [targets[0]] + WipeAttempts(targets[1..], failing)
  }

  /** `WipeMods`' result: the first failure, wrapped with its path. */
  function WipeResult(targets: seq<string>, failing: map<string, Error>): Outcome
  {
    if targets == [] then Pass
    else if targets[0] in failing then Fail(WipeFailed(targets[0], failing[targets[0]]))
    else WipeResult(targets[1..], failing)
  }

  /** Wiping a target that does not fail, then the rest. */
  lemma WipeCons(p: string, rest: seq<string>, failing: map<string, Error>)
    ensures WipeResult([p] + rest, failing)
            == if p in failing then Fail(WipeFailed(p, failing[p])) else WipeResult(rest, failing)
    ensures WipeAttempts([p] + rest, failing)
            == if p in failing then [p] else [p] + WipeAttempts(rest, failing)
  {
    assert ([p] + rest)[1..] == rest;
  }

  /** Without failures every target is wiped and the call succeeds;
      otherwise the wipes form a prefix of the targets that ends at the first
      failing one, whose error is returned. */
  lemma {:induction false} WipeOutcomeRule(targets: seq<string>, failing: map<string, Error>)
    ensures WipeResult(targets, failing) == Pass <==> forall j :: 0 <= j < |targets| ==> targets[j] !in failing
    ensures WipeResult(targets, failing) == Pass ==> WipeAttempts(targets, failing) == targets
    ensures WipeResult(targets, failing).Fail? ==>
      var attempts := WipeAttempts(targets, failing);
      var last := |attempts| - 1;
      |attempts| > 0 && attempts == targets[..|attempts|]
      && attempts[last] in failing && WipeResult(targets, failing) == Fail(WipeFailed(attempts[last], failing[attempts[last]]))
      && forall j :: 0 <= j < last ==> attempts[j] !in failing
  {
    if targets != [] && targets[0] !in failing {
      var rest := targets[1..];
      WipeOutcomeRule(rest, failing);
      assert forall j :: 1 <= j < |targets| ==> targets[j] == rest[j - 1];
      if WipeResult(targets, failing).Fail? {
        var tail := WipeAttempts(rest, failing);
        var attempts := [targets[0]] + tail;
        assert attempts == targets[..|attempts|];
        assert forall j :: 1 <= j < |attempts| ==> attempts[j] == tail[j - 1];
      }
    }
  }

  /** One effect per attempted wipe. */
  function WipeLog(paths: seq<string>): seq<Effect>
  {
    if paths == [] then [] else [WipeAttempted(paths[0])] + WipeLog(paths[1..])
  }

  /** The paths of the installation-find errors, in order (`GetInvalidInstalls`). */
  function FindErrorPaths(errors: seq<FindError>): seq<string>
  {
    if errors == [] then []
    else if errors[0].InstallFindError? then [errors[0].path] + FindErrorPaths(errors[1..])
    else FindErrorPaths(errors[1..])
  }

  /** A path is reported exactly when one of the errors is an installation
      find error for it. */
  lemma {:induction false} FindErrorPathsMembers(errors: seq<FindError>, p: string)
    ensures |FindErrorPaths(errors)| <= |errors|
    ensures p in FindErrorPaths(errors) <==> InstallFindError(p) in errors
  {
    if errors != [] {
      FindErrorPathsMembers(errors[1..], p);
      assert errors == [errors[0]] + errors[1..];
    }
  }

  // ---------------------------------------------------------------------
  // Targets, mods and launching

  /** The paths of the items with the given target name, in input order. */
  function PathsFor(items: seq<TargetedInstall>, target: string): seq<string>
  {
    if items == [] then []
    else if items[0].targetName == target then [items[0].path] + PathsFor(items[1..], target)
    else PathsFor(items[1..], target)
  }

  /** `GetModsEnabled`: true when nothing is selected, otherwise the
      negation of the selected entry's vanilla flag. */
  function ModsEnabled(installs: seq<CliInstall>, selected: string): bool
  {
    match FindInstall(installs, selected)
    case None => true
    case Some(k) => !installs[k].vanilla
  }

  /** Setting the selected entry's vanilla flag to `!enabled` makes
      `GetModsEnabled` report `enabled`. */
  lemma ModsEnabledRoundTrip(installs: seq<CliInstall>, selected: string, enabled: bool)
    requires FindInstall(installs, selected).Some?
    ensures var k := FindInstall(installs, selected).value;
      ModsEnabled(installs[k := installs[k].(vanilla := !enabled)], selected) == enabled
  {
    var k := FindInstall(installs, selected).value;
    FindIgnoresVanilla(installs, k, !enabled, selected);
  }

  /** `GetSelectedInstallLockfile`: nil without a selection, otherwise
      whatever ficsit-cli's `LockFile` answered for the selected entry. */
  function SelectedLockfile(installs: seq<CliInstall>, selected: string, lockfile: Result<Option<LockFile>>): Result<Option<LockFile>>
  {
    if FindInstall(installs, selected).None? then Ok(None) else lockfile
  }

  /** `GetSelectedInstallLockfileMods`: an empty map without a selection or
      without a lock file. */
  function SelectedLockfileMods(installs: seq<CliInstall>, selected: string, lockfile: Result<Option<LockFile>>): Result<map<string, string>>
  {
    if FindInstall(installs, selected).None? then Ok(map[])
    else match lockfile
      case Err(e) => Err(e)
      case Ok(None) => Ok(map[])
      case Ok(Some(l)) => Ok(l.mods)
  }

  /** The two lock-file getters agree: the mods fail exactly when the lock
      file does, with the same error, and are otherwise the lock file's
      mods or nothing. */
  lemma LockfileGettersAgree(installs: seq<CliInstall>, selected: string, lockfile: Result<Option<LockFile>>)
    ensures SelectedLockfileMods(installs, selected, lockfile).Err? <==> SelectedLockfile(installs, selected, lockfile).Err?
    ensures SelectedLockfile(installs, selected, lockfile).Err? ==>
      SelectedLockfileMods(installs, selected, lockfile).error == SelectedLockfile(installs, selected, lockfile).error
    ensures SelectedLockfile(installs, selected, lockfile) == Ok(None) ==> SelectedLockfileMods(installs, selected, lockfile) == Ok(map[])
    ensures SelectedLockfile(installs, selected, lockfile).Ok? && SelectedLockfile(installs, selected, lockfile).value.Some? ==>
      SelectedLockfileMods(installs, selected, lockfile) == Ok(SelectedLockfile(installs, selected, lockfile).value.value.mods)
  {
  }

  /** `GetSelectedInstallProfileMods`: the mods of the selected entry's
      profile, empty when nothing is selected or the profile is unknown
      (`profiles` stands for ficsit-cli's `GetProfile`). */
  function SelectedProfileMods(installs: seq<CliInstall>, selected: string, profiles: map<string, map<string, ProfileMod>>): (r: map<string, ProfileMod>)
    ensures r != map[] ==>
      FindInstall(installs, selected).Some?
      && installs[FindInstall(installs, selected).value].profile in profiles
      && r == profiles[installs[FindInstall(installs, selected).value].profile]
    ensures FindInstall(installs, selected).Some? && installs[FindInstall(installs, selected).value].profile in profiles
            ==> r == profiles[installs[FindInstall(installs, selected).value].profile]
  {
    match FindInstall(installs, selected)
    case None => map[]
    case Some(k) => if installs[k].profile in profiles then profiles[installs[k].profile] else map[]
  }

  /** The executables `findCustomInstallationExecutable` tries, in order. */
  function CustomExecutableCandidates(installPath: string): (r: seq<string>)
    ensures |r| == 4 && forall i :: 0 <= i < 4 ==> r[i] != ""
  {
    var r := [
      Join([installPath, "FactoryGame", "Binaries", "Win64", "FactoryGame-Win64-Shipping.exe"]),
      Join([installPath, "FactoryGame", "Binaries", "Win64", "FactoryGame.exe"]),
      Join([installPath, "FactoryGame.exe"]),
      Join([installPath, "FactoryGameSteam.exe"])];
    assert [installPath, "FactoryGame", "Binaries", "Win64", "FactoryGame-Win64-Shipping.exe"][4] != "";
    assert [installPath, "FactoryGame", "Binaries", "Win64", "FactoryGame.exe"][4] != "";
    assert [installPath, "FactoryGame.exe"][1] != "";
    assert [installPath, "FactoryGameSteam.exe"][1] != "";
    r
  }

  /** The command `LaunchGame` runs, or `None` when it launches nothing. */
  function LaunchCommand(metadata: map<string, InstallationMetadata>, installs: seq<CliInstall>, selected: string,
                         existing: set<string>): Option<seq<string>>
  {
    if FindInstall(installs, selected).None? then None
    else if selected !in metadata || metadata[selected].info.None? then None
    else
      var info := metadata[selected].info.value;
      if info.launcher == CustomLauncher then
        match FirstIn(CustomExecutableCandidates(selected), existing)
        case Some(j) => Some(["cmd", "/C", "start", SteamLaunchUri, CustomExecutableCandidates(selected)[j]])
        case None => None
      else if |info.launchPath| > 0 then Some(info.launchPath)
      else None
  }

  /** What is launched: nothing without a selected entry and its metadata;
      for a custom installation Steam's launch URI with the first existing
      candidate, or nothing; otherwise the stored launch path verbatim, or
      nothing when it is empty. */
  lemma LaunchChoice(metadata: map<string, InstallationMetadata>, installs: seq<CliInstall>, selected: string, existing: set<string>)
    ensures FindInstall(installs, selected).None? || selected !in metadata || metadata[selected].info.None?
            ==> LaunchCommand(metadata, installs, selected, existing).None?
    ensures LaunchCommand(metadata, installs, selected, existing).Some? ==>
      var info := metadata[selected].info.value;
      var cmd := LaunchCommand(metadata, installs, selected, existing).value;
      if info.launcher == CustomLauncher then
        |cmd| == 5 && cmd[..4] == ["cmd", "/C", "start", SteamLaunchUri]
        && cmd[4] in existing
        && exists j :: 0 <= j < 4 && CustomExecutableCandidates(selected)[j] == cmd[4]
             && forall i :: 0 <= i < j ==> CustomExecutableCandidates(selected)[i] !in existing
      else cmd == info.launchPath && |cmd| > 0
    ensures FindInstall(installs, selected).Some? && selected in metadata && metadata[selected].info.Some?
            && metadata[selected].info.value.launcher != CustomLauncher
            ==> (LaunchCommand(metadata, installs, selected, existing).None? <==> metadata[selected].info.value.launchPath == [])
    ensures FindInstall(installs, selected).Some? && selected in metadata && metadata[selected].info.Some?
            && metadata[selected].info.value.launcher == CustomLauncher
            ==> (LaunchCommand(metadata, installs, selected, existing).None?
                 <==> forall j :: 0 <= j < 4 ==> CustomExecutableCandidates(selected)[j] !in existing)
  {
    if LaunchCommand(metadata, installs, selected, existing).Some? {
      var info := metadata[selected].info.value;
      if info.launcher == CustomLauncher {
        var k := FirstIn(CustomExecutableCandidates(selected), existing).value;
        assert CustomExecutableCandidates(selected)[k] == LaunchCommand(metadata, installs, selected, existing).value[4];
      }
    }
  }

  /** The watcher's test: some process runs one of the game's executables. */
  predicate GameProcessRunning(processes: seq<string>)
  {
    exists i :: 0 <= i < |processes| && processes[i] in ExecutableNames
  }

  /** The membership loop of one watcher tick, stopping at the first hit. */
  method ScanProcesses(processes: seq<string>) returns (running: bool)
    ensures running <==> GameProcessRunning(processes)
  {
    running := false;
    var i := 0;
    while i < |processes|
      invariant 0 <= i <= |processes|
      invariant forall j :: 0 <= j < i ==> processes[j] !in ExecutableNames
    {
      if processes[i] in ExecutableNames {
        running := true;
        break;
      }
      i := i + 1;
    }
  }

  /** `SelectedProfileTargets`: the paths grouped by target name, each
      group in input order; `None` when `getInstallsToApply` fails. */
  method SelectedProfileTargets(toApply: Result<seq<TargetedInstall>>) returns (r: Option<map<string, seq<string>>>)
    ensures toApply.Err? <==> r.None?
    ensures r.Some? ==> forall t :: (t in r.value <==> PathsFor(toApply.value, t) != [])
    ensures r.Some? ==> forall t :: t in r.value ==> r.value[t] == PathsFor(toApply.value, t)
  {
    if toApply.Err? {
      return None;
    }
    var items := toApply.value;
    var groups: map<string, seq<string>> := map[];
    var i := 0;
    while i < |items|
      invariant 0 <= i <= |items|
      invariant forall t :: t in groups ==> groups[t] != []
      invariant forall t :: PathsFor(items, t) == (if t in groups then groups[t] else []) + PathsFor(items[i..], t)
    {
      assert items[i..][1..] == items[i + 1..];
      var item := items[i];
      var group := if item.targetName in groups then groups[item.targetName] else [];
      groups := groups[item.targetName := group + [item.path]];
      i := i + 1;
    }
    forall t ensures PathsFor(items[i..], t) == [] { assert items[i..] == []; }
    return Some(groups);
  }

  // ---------------------------------------------------------------------
  // The registry object

  class FicsitCli {
    var metadata: map<string, InstallationMetadata>
    var installs: seq<CliInstall>
    var selected: string
    var isGameRunning: bool
    var installFindErrors: seq<FindError>
    var effects: seq<Effect>
    /** Whether the Wails application context is set; events go nowhere before. */
    const hasAppContext: bool
    /** `GetFallbackProfile()`, the profile new installations get. */
    const fallbackProfile: string

    constructor (installs: seq<CliInstall>, selected: string, installFindErrors: seq<FindError>,
                 hasAppContext: bool, fallbackProfile: string)
      ensures this.installs == installs && this.selected == selected
      ensures this.installFindErrors == installFindErrors
      ensures this.hasAppContext == hasAppContext && this.fallbackProfile == fallbackProfile
      ensures metadata == map[] && !isGameRunning && effects == []
    {
      this.installs := installs;
      this.selected := selected;
      this.installFindErrors := installFindErrors;
      this.hasAppContext := hasAppContext;
      this.fallbackProfile := fallbackProfile;
      metadata := map[];
      isGameRunning := false;
      effects := [];
    }

    /** What one call of `EmitGlobals` adds to the log. */
    function GlobalsEvents(): seq<Effect>
      reads this
    {
      if hasAppContext then [EmittedGlobals] else []
    }

    method EmitGlobals()
      modifies this`effects
      ensures effects == old(effects) + GlobalsEvents()
    {
      if hasAppContext {
        effects := effects + [EmittedGlobals];
      }
    }

    /** What one call of `EmitModsChange` adds: nothing when the lock file
      cannot be loaded. */
    function ModsChangeEvents(lockfile: Result<Option<LockFile>>): seq<Effect>
      reads this
    {
      if SelectedLockfileMods(installs, selected, lockfile).Ok? then [EmittedModsChange] else []
    }

    method EmitModsChange(lockfile: Result<Option<LockFile>>)
      modifies this`effects
      ensures effects == old(effects) + ModsChangeEvents(lockfile)
    {
      var mods := SelectedLockfileMods(installs, selected, lockfile);
      if mods.Err? {
        return;
      }
      effects := effects + [EmittedModsChange];
    }

    /** The seeding loop of `initInstallations`. */
    method SeedInstallations()
      modifies this`metadata
      ensures metadata == Seeded(old(metadata), installs)
      ensures forall i :: 0 <= i < |installs| ==> IsValid(metadata, installs[i].path)
    {
      var i := 0;
      while i < |installs|
        invariant 0 <= i <= |installs|
        invariant Seeded(old(metadata), installs) == Seeded(metadata, installs[i..])
      {
        assert installs[i..][1..] == installs[i + 1..];
        metadata := metadata[installs[i].path := InstallationMetadata(Unknown, None)];
        i := i + 1;
      }
      assert installs[i..] == [];
      forall j | 0 <= j < |installs| ensures IsValid(metadata, installs[j].path) {
        SeededListed(old(metadata), installs, installs[j].path);
      }
    }

    /** `GetInstallations`. */
    method GetInstallations() returns (paths: seq<string>)
      ensures paths == ValidPaths(metadata, installs)
    {
      paths := [];
      var i := 0;
      while i < |installs|
        invariant 0 <= i <= |installs|
        invariant ValidPaths(metadata, installs) == paths + ValidPaths(metadata, installs[i..])
      {
        assert installs[i..][1..] == installs[i + 1..];
        if IsValid(metadata, installs[i].path) {
          paths := paths + [installs[i].path];
        }
        i := i + 1;
      }
      assert installs[i..] == [];
    }

    /** `ensureSelectedInstallationIsValid`: an invalid selection falls back
      to the first valid listed path, which is saved (a failure is only
      logged) and announced; with nothing valid the selection stays. */
    method EnsureSelectedInstallationIsValid()
      modifies this`selected, this`effects
      ensures SelectionSettled(metadata, installs, old(selected), selected)
      ensures effects == if selected == old(selected) then old(effects) else old(effects) + [Saved] + GlobalsEvents()
    {
      if !IsValid(metadata, selected) {
        var filtered := GetInstallations();
        if |filtered| > 0 {
          ValidPathsMembers(metadata, installs, filtered[0]);
          selected := filtered[0];
          effects := effects + [Saved];
          EmitGlobals();
        }
      }
    }

    /** `AddInstallation`: on ficsit-cli's success the entry is appended and
      its metadata stored before the save, so a failing save still leaves it
      stored. */
    method AddInstallation(path: string, launchPath: seq<string>, installType: string, branch: string,
                           version: int, launcher: string, cliAdd: Outcome, save: Outcome) returns (err: Outcome)
      modifies this`metadata, this`installs, this`effects
      ensures cliAdd.Fail? ==>
        err == Fail(AddToCliFailed(cliAdd.error))
        && metadata == old(metadata) && installs == old(installs) && effects == old(effects)
      ensures cliAdd.Pass? ==>
        installs == old(installs) + [CliInstall(path, fallbackProfile, false)]
        && metadata == old(metadata)[path := InstallationMetadata(Valid,
             Some(Installation(path, version, installType, Local, branch, launcher, launchPath)))]
        && (save.Fail? ==> err == Fail(SaveInstallationsFailed(save.error)) && effects == old(effects) + [Saved])
        && (save.Pass? ==> err == Pass && effects == old(effects) + [Saved] + GlobalsEvents())
    {
      if cliAdd.Fail? {
        return Fail(AddToCliFailed(cliAdd.error));
      }
      installs := installs + [CliInstall(path, fallbackProfile, false)];
      var installation := Installation(path, version, installType, Local, branch, launcher, launchPath);
      metadata := metadata[path := InstallationMetadata(Valid, Some(installation))];
      effects := effects + [Saved];
      if save.Fail? {
        return Fail(SaveInstallationsFailed(save.error));
      }
      EmitGlobals();
      return Pass;
    }

    /** `ClearInstallations`: everything is cleared before the save, so a
      failing save still leaves the registry empty. */
    method ClearInstallations(save: Outcome) returns (err: Outcome)
      modifies this`metadata, this`installs, this`selected, this`effects
      ensures installs == [] && selected == "" && metadata == map[]
      ensures save.Fail? ==> err == Fail(SaveEmptyInstallationsFailed(save.error)) && effects == old(effects) + [Saved]
      ensures save.Pass? ==> err == Pass && effects == old(effects) + [Saved] + GlobalsEvents()
    {
      installs := [];
      selected := "";
      metadata := map[];
      effects := effects + [Saved];
      if save.Fail? {
        return Fail(SaveEmptyInstallationsFailed(save.error));
      }
      EmitGlobals();
      return Pass;
    }

    /** `WipeMods`: `Wipe()` on each selected installation in list order,
      stopping at the first failure (`failing` gives the paths whose wipe
      fails, with the error). */
    method WipeMods(includeRemote: bool, failing: map<string, Error>) returns (err: Outcome)
      modifies this`effects
      ensures err == WipeResult(WipeTargets(metadata, installs, includeRemote), failing)
      ensures effects == old(effects) + WipeLog(WipeAttempts(WipeTargets(metadata, installs, includeRemote), failing))
    {
      var metadata, installs := this.metadata, this.installs;
      ghost var targets := WipeTargets(metadata, installs, includeRemote);
      ghost var remaining := targets;
      ghost var log := effects;
      var i := 0;
      assert installs[0..] == installs;
      ConcatEmpty(log + WipeLog(WipeAttempts(targets, failing)));
      while i < |installs|
        invariant 0 <= i <= |installs|
        invariant remaining == WipeTargets(metadata, installs[i..], includeRemote)
        invariant WipeResult(targets, failing) == WipeResult(remaining, failing)
        invariant effects + WipeLog(WipeAttempts(remaining, failing)) == log + WipeLog(WipeAttempts(targets, failing))
      {
        var install := installs[i];
        ghost var rest := WipeTargets(metadata, installs[i + 1..], includeRemote);
        WipeStep(metadata, installs, i, includeRemote);
        if WipeSelected(metadata, install.path, includeRemote) {
          assert remaining == [install.path] + rest;
          WipeCons(install.path, rest, failing);
          if install.path in failing {
            WipeLogCons(install.path, []);
            effects := effects + [WipeAttempted(install.path)];
            return Fail(WipeFailed(install.path, failing[install.path]));
          }
          WipeLogCons(install.path, WipeAttempts(rest, failing));
          ConcatAssoc(effects, [WipeAttempted(install.path)], WipeLog(WipeAttempts(rest, failing)));
          effects := effects + [WipeAttempted(install.path)];
        } else {
          assert remaining == rest;
        }
        remaining := rest;
        i := i + 1;
      }
      assert installs[i..] == [];
      ConcatEmpty(effects);
      return Pass;
    }

    /** `GetInvalidInstalls`. */
    method GetInvalidInstalls() returns (paths: seq<string>)
      ensures paths == FindErrorPaths(installFindErrors)
    {
      paths := [];
      var i := 0;
      while i < |installFindErrors|
        invariant 0 <= i <= |installFindErrors|
        invariant FindErrorPaths(installFindErrors) == paths + FindErrorPaths(installFindErrors[i..])
      {
        assert installFindErrors[i..][1..] == installFindErrors[i + 1..];
        if installFindErrors[i].InstallFindError? {
          paths := paths + [installFindErrors[i].path];
        }
        i := i + 1;
      }
      assert installFindErrors[i..] == [];
    }

    /** The work body of `SelectInstall`: validity first, then the
      already-selected check, then the list lookup. */
    method SelectInstall(path: string, lockfile: Result<Option<LockFile>>) returns (err: Outcome)
      modifies this`selected, this`effects
      ensures !IsValid(metadata, path) ==>
        err == Fail(InvalidInstallation(path)) && selected == old(selected) && effects == old(effects)
      ensures IsValid(metadata, path) && old(selected) == path ==> err == Pass && selected == path && effects == old(effects)
      ensures IsValid(metadata, path) && old(selected) != path && FindInstall(installs, path).None? ==>
        err == Fail(InstallationNotFound(path)) && selected == old(selected) && effects == old(effects)
      ensures IsValid(metadata, path) && old(selected) != path && FindInstall(installs, path).Some? ==>
        err == Pass && selected == path
        && effects == old(effects) + [Saved] + GlobalsEvents() + ModsChangeEvents(lockfile)
    {
      if !IsValid(metadata, path) {
        return Fail(InvalidInstallation(path));
      }
      if selected == path {
        return Pass;
      }
      if FindInstall(installs, path).None? {
        return Fail(InstallationNotFound(path));
      }
      selected := path;
      effects := effects + [Saved];
      EmitGlobals();
      EmitModsChange(lockfile);
      return Pass;
    }

    /** The work body of `SetModsEnabled`: the flag is set and saved before
      `apply`, whose error is returned without undoing the flag. */
    method SetModsEnabled(enabled: bool, applied: Outcome) returns (err: Outcome)
      modifies this`installs, this`effects
      ensures FindInstall(old(installs), selected).None? ==>
        err == Fail(NoInstallationSelected) && installs == old(installs) && effects == old(effects)
      ensures FindInstall(old(installs), selected).Some? ==>
        var k := FindInstall(old(installs), selected).value;
        installs == old(installs)[k := old(installs)[k].(vanilla := !enabled)]
        && ModsEnabled(installs, selected) == enabled
        && err == applied
        && effects == old(effects) + [Saved] + GlobalsEvents() + [Applied]
    {
      var found := FindInstall(installs, selected);
      if found.None? {
        return Fail(NoInstallationSelected);
      }
      var k := found.value;
      ModsEnabledRoundTrip(installs, selected, enabled);
      installs := installs[k := installs[k].(vanilla := !enabled)];
      effects := effects + [Saved];
      EmitGlobals();
      effects := effects + [Applied];
      return applied;
    }

    /** One tick of the game-running watcher; `processes` is `None` when the
      process list cannot be read, and the tick then does nothing. */
    method GameRunningTick(processes: Option<seq<string>>)
      modifies this`isGameRunning, this`effects
      ensures processes.None? ==> isGameRunning == old(isGameRunning) && effects == old(effects)
      ensures processes.Some? ==>
        (isGameRunning <==> GameProcessRunning(processes.value))
        && effects == old(effects) + [EmittedGameRunning(isGameRunning)]
    {
      if processes.None? {
        return;
      }
      isGameRunning := ScanProcesses(processes.value);
      effects := effects + [EmittedGameRunning(isGameRunning)];
    }

    /** `findCustomInstallationExecutable`: the first existing candidate, or
      the empty string. */
    static method FindCustomInstallationExecutable(installPath: string, existing: set<string>) returns (path: string)
      ensures match FirstIn(CustomExecutableCandidates(installPath), existing)
        case Some(j) => path == CustomExecutableCandidates(installPath)[j]
        case None => path == ""
    {
      var candidates := CustomExecutableCandidates(installPath);
      var i := 0;
      while i < |candidates|
        invariant 0 <= i <= |candidates|
        invariant forall j :: 0 <= j < i ==> candidates[j] !in existing
      {
        if candidates[i] in existing {
          return candidates[i];
        }
        i := i + 1;
      }
      return "";
    }

    /** `LaunchGame`'s choice of command; `existing` is what `os.Stat` finds. */
    method LaunchGame(existing: set<string>) returns (cmd: Option<seq<string>>)
      ensures cmd == LaunchCommand(metadata, installs, selected, existing)
    {
      var found := FindInstall(installs, selected);
      if found.None? {
        return None;
      }
      var path := installs[found.value].path;
      if path !in metadata || metadata[path].info.None? {
        return None;
      }
      var info := metadata[path].info.value;
      if info.launcher == CustomLauncher {
        var exe := FindCustomInstallationExecutable(path, existing);
        if exe != "" {
          return Some(["cmd", "/C", "start", SteamLaunchUri, exe]);
        }
        return None;
      }
      if |info.launchPath| > 0 {
        return Some(info.launchPath);
      }
      return None;
    }
  }
}
