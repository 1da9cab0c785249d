/** The custom-installation resolver (launchers/custom/custom.go): turns a
    user-chosen directory into an `Installation` by probing for the game
    executable, walking the directory when the probes miss, inferring the
    install type from the executable's path and reading the build number
    from a version file. */
module Custom {
  import opened Common

  const LauncherName: string := CustomLauncher

  /** The executables probed, in order, as path elements below the
      installation path. */
  const ProbeSuffixes: seq<seq<string>> := [
    ["FactoryGame.exe"],
    ["Binaries", "Win64", "FactoryGame.exe"],
    ["Engine", "Binaries", "Win64", "FactoryGame.exe"],
    ["FactoryGameSteam.exe"],
    ["FactoryGameEGS.exe"],
    ["Binaries", "Win64", "FactoryGameSteam.exe"],
    ["Binaries", "Win64", "FactoryGameEGS.exe"],
    ["FactoryGame", "Binaries", "Win64", "FactoryGame.exe"],
    ["FactoryGame", "Binaries", "Win64", "FactoryGame-Win64-Shipping.exe"]]

  function ExecutableProbes(installPath: string): seq<string>
  {
    seq(|ProbeSuffixes|, i requires 0 <= i < |ProbeSuffixes| => Join([installPath] + ProbeSuffixes[i]))
  }

  /** The lower-case file names the directory walk accepts. */
  const GameFileNames: seq<string> := [
    "factorygame.exe", "factorygamesteam.exe", "factorygameegs.exe",
    "factorygame-win64-shipping.exe", "factorygamesteam-win64-shipping.exe",
    "factorygameegs-win64-shipping.exe"]

  predicate IsGameFileName(name: string)
  {
    Lower(name) in GameFileNames
  }

  /** The version files tried, in order, as path elements below the
      installation path. */
  const VersionFileSuffixes: seq<seq<string>> := [
    ["Engine", "Binaries", "Win64", "FactoryGame-Win64-Shipping.version"],
    ["Engine", "Binaries", "Win64", "FactoryGameSteam-Win64-Shipping.version"],
    ["Engine", "Binaries", "Win64", "FactoryGameEGS-Win64-Shipping.version"],
    ["FactoryGame", "Engine", "Binaries", "Win64", "FactoryGame-Win64-Shipping.version"],
    ["FactoryGame", "Engine", "Binaries", "Win64", "FactoryGameSteam-Win64-Shipping.version"],
    ["FactoryGame", "Engine", "Binaries", "Win64", "FactoryGameEGS-Win64-Shipping.version"],
    ["Engine", "Build", "Build.version"]]

  function VersionFiles(installPath: string): seq<string>
  {
    seq(|VersionFileSuffixes|, i requires 0 <= i < |VersionFileSuffixes| => Join([installPath] + VersionFileSuffixes[i]))
  }

  // ---------------------------------------------------------------------
  // The directory walk

  /** The walk over the entries of directory `dir`, with `found` the match
      recorded so far. A matching file records its path and answers
      `SkipDir`, which skips the rest of `dir` only: the walk goes on in the
      parent directory, so a later match overwrites an earlier one. */
  function WalkEntries(dir: string, entries: seq<Entry>, found: Option<string>): Option<string>
    decreases entries
  {
    if entries == [] then found
    else match entries[0]
      case File(name) =>
        if IsGameFileName(name) then Some(Join([dir, name]))
        else WalkEntries(dir, entries[1..], found)
      case Unstattable(_) => WalkEntries(dir, entries[1..], found)
      case Dir(name, readable, children) =>
        if readable then WalkEntries(dir, entries[1..], WalkEntries(Join([dir, name]), children, found))
        else WalkEntries(dir, entries[1..], found)
  }

  /** `filepath.Walk(root, ...)` with the resolver's callback: the root is
      visited first (as a file it may match itself), then its listing. */
  function WalkRoot(root: string, tree: Entry): Option<string>
  {
    match tree
    case File(name) => if IsGameFileName(name) then Some(root) else None
    case Unstattable(_) => None
    case Dir(_, readable, children) => if readable then WalkEntries(root, children, None) else None
  }

  /** `p` is the path of an accepted file somewhere in the readable part of
      the listing `entries` of `dir`. */
  predicate MatchIn(dir: string, entries: seq<Entry>, p: string)
    decreases entries, 1
  {
    exists i :: 0 <= i < |entries| && MatchAt(dir, entries, i, p)
  }

  predicate MatchAt(dir: string, entries: seq<Entry>, i: nat, p: string)
    requires i < |entries|
    decreases entries, 0
  {
    match entries[i]
    case File(name) => IsGameFileName(name) && p == Join([dir, name])
    case Unstattable(_) => false
    case Dir(name, readable, children) => readable && MatchIn(Join([dir, name]), children, p)
  }

  /** A match in the tail of a listing is a match in the listing. */
  lemma MatchShift(dir: string, entries: seq<Entry>, p: string)
    requires entries != [] && MatchIn(dir, entries[1..], p)
    ensures MatchIn(dir, entries, p)
  {
    var i :| 0 <= i < |entries[1..]| && MatchAt(dir, entries[1..], i, p);
    assert entries[1..][i] == entries[i + 1];
    assert MatchAt(dir, entries, i + 1, p);
  }

  /** A match in the listing other than at its head is a match in its tail. */
  lemma TailMatch(dir: string, entries: seq<Entry>, i: nat, p: string)
    requires 0 < i < |entries| && MatchAt(dir, entries, i, p)
    ensures MatchIn(dir, entries[1..], p)
  {
    assert entries[1..][i - 1] == entries[i];
    assert MatchAt(dir, entries[1..], i - 1, p);
  }

  /** A walk result is either what was recorded before or an accepted file. */
  lemma {:induction false} WalkSound(dir: string, entries: seq<Entry>, found: Option<string>)
    ensures WalkEntries(dir, entries, found) == found
         || (WalkEntries(dir, entries, found).Some? && MatchIn(dir, entries, WalkEntries(dir, entries, found).value))
    decreases entries
  {
    if entries != [] {
      var r := WalkEntries(dir, entries, found);
      match entries[0]
      case File(name) =>
        if IsGameFileName(name) {
          assert MatchAt(dir, entries, 0, r.value);
        } else {
          WalkSound(dir, entries[1..], found);
          if r != found { MatchShift(dir, entries, r.value); }
        }
      case Unstattable(_) =>
        WalkSound(dir, entries[1..], found);
        if r != found { MatchShift(dir, entries, r.value); }
      case Dir(name, readable, children) =>
        if readable {
          var inner := WalkEntries(Join([dir, name]), children, found);
          WalkSound(Join([dir, name]), children, found);
          WalkSound(dir, entries[1..], inner);
          if r != inner {
            MatchShift(dir, entries, r.value);
          } else if r != found {
            assert MatchAt(dir, entries, 0, r.value);
          }
        } else {
          WalkSound(dir, entries[1..], found);
          if r != found { MatchShift(dir, entries, r.value); }
        }
    }
  }

  /** Once something is recorded the walk never forgets it. */
  lemma {:induction false} WalkKeepsSome(dir: string, entries: seq<Entry>, found: Option<string>)
    requires found.Some?
    ensures WalkEntries(dir, entries, found).Some?
    decreases entries
  {
    if entries != [] {
      match entries[0]
      case File(name) =>
        if !IsGameFileName(name) { WalkKeepsSome(dir, entries[1..], found); }
      case Unstattable(_) => WalkKeepsSome(dir, entries[1..], found);
      case Dir(name, readable, children) =>
        if readable {
          WalkKeepsSome(Join([dir, name]), children, found);
          WalkKeepsSome(dir, entries[1..], WalkEntries(Join([dir, name]), children, found));
        } else {
          WalkKeepsSome(dir, entries[1..], found);
        }
    }
  }

  /** If an accepted file is reachable, the walk records something. */
  lemma {:induction false} WalkComplete(dir: string, entries: seq<Entry>, found: Option<string>, p: string)
    requires MatchIn(dir, entries, p)
    ensures WalkEntries(dir, entries, found).Some?
    decreases entries
  {
    var i :| 0 <= i < |entries| && MatchAt(dir, entries, i, p);
    match entries[0]
    case File(name) =>
      if !IsGameFileName(name) {
        TailMatch(dir, entries, i, p);
        WalkComplete(dir, entries[1..], found, p);
      }
    case Unstattable(_) =>
      TailMatch(dir, entries, i, p);
      WalkComplete(dir, entries[1..], found, p);
    case Dir(name, readable, children) =>
      var inner := if readable then WalkEntries(Join([dir, name]), children, found) else found;
      if i == 0 {
        WalkComplete(Join([dir, name]), children, found, p);
        WalkKeepsSome(dir, entries[1..], inner);
      } else {
        TailMatch(dir, entries, i, p);
        WalkComplete(dir, entries[1..], inner, p);
      }
  }

  /** Once a listing holds an accepted file, what was recorded before it
      makes no difference: a later match overwrites an earlier one. */
  lemma {:induction false} LaterMatchDecides(dir: string, entries: seq<Entry>, f1: Option<string>, f2: Option<string>, p: string)
    requires MatchIn(dir, entries, p)
    ensures WalkEntries(dir, entries, f1) == WalkEntries(dir, entries, f2)
    decreases entries
  {
    var i :| 0 <= i < |entries| && MatchAt(dir, entries, i, p);
    match entries[0]
    case File(name) =>
      if !IsGameFileName(name) {
        TailMatch(dir, entries, i, p);
        LaterMatchDecides(dir, entries[1..], f1, f2, p);
      }
    case Unstattable(_) =>
      TailMatch(dir, entries, i, p);
      LaterMatchDecides(dir, entries[1..], f1, f2, p);
    case Dir(name, readable, children) =>
      if !readable {
        TailMatch(dir, entries, i, p);
        LaterMatchDecides(dir, entries[1..], f1, f2, p);
      } else if i == 0 {
        LaterMatchDecides(Join([dir, name]), children, f1, f2, p);
      } else {
        TailMatch(dir, entries, i, p);
        LaterMatchDecides(dir, entries[1..], WalkEntries(Join([dir, name]), children, f1),
                          WalkEntries(Join([dir, name]), children, f2), p);
      }
  }

  /** Two accepted files in sibling directories: the second one is kept. The
      walk does not stop at its first match. */
  lemma LaterMatchOverwritesEarlier(root: string, a: string, b: string, f: string, g: string)
    requires IsGameFileName(f) && IsGameFileName(g)
    ensures WalkRoot(root, Dir(root, true, [Dir(a, true, [File(f)]), Dir(b, true, [File(g)])]))
            == Some(Join([Join([root, b]), g]))
  {
    var second := [Dir(b, true, [File(g)])];
    var entries := [Dir(a, true, [File(f)])] + second;
    assert entries[1..] == second && second[1..] == [];
    var first := WalkEntries(Join([root, a]), [File(f)], None);
    assert WalkEntries(root, entries, None) == WalkEntries(root, second, first);
  }

  /** `SkipDir` from an accepted file ends the walk of its own directory:
      a second accepted file beside it is never recorded. */
  lemma SkipDirEndsOwnDirectory(root: string, a: string, f: string, g: string)
    requires IsGameFileName(f)
    ensures WalkRoot(root, Dir(root, true, [Dir(a, true, [File(f), File(g)])]))
            == Some(Join([Join([root, a]), f]))
  {
    var entries := [Dir(a, true, [File(f), File(g)])];
    var inner := WalkEntries(Join([root, a]), [File(f), File(g)], None);
    assert inner == Some(Join([Join([root, a]), f]));
    assert entries[1..] == [];
    assert WalkEntries(root, entries, None) == WalkEntries(root, [], inner);
  }

  /** The standard client executable is on the walk's allow-list. */
  lemma ClientFileOnList()
    ensures IsGameFileName("FactoryGame.exe")
  {
    assert Lower("FactoryGame.exe") == "factorygame.exe";
  }

  /** The dedicated-server executable is not. */
  lemma ServerFileNotOnList()
    ensures !IsGameFileName("FactoryGameServer.exe")
  {
    assert Lower("FactoryGameServer.exe") == "factorygameserver.exe";
  }

  // ---------------------------------------------------------------------
  // Install type and version

  /** The executable the resolver settles on: the first probe that exists,
      otherwise whatever the walk recorded. */
  function LocateExecutable(installPath: string, fs: FileSystem): Option<string>
  {
    match FirstIn(ExecutableProbes(installPath), fs.existing)
    case Some(k) => Some(ExecutableProbes(installPath)[k])
    case None => WalkRoot(installPath, fs.tree)
  }

  function InferInstallType(executable: Option<string>): string
  {
    if executable.Some?
       && (Contains(Lower(Base(executable.value)), "server") || Contains(Lower(executable.value), "server"))
    then InstallTypeWindowsServer
    else InstallTypeWindowsClient
  }

  /** The base-name test adds nothing: the type is the server type exactly
      when an executable was found whose path contains "server", ignoring case. */
  lemma ServerTypeRule(executable: Option<string>)
    ensures InferInstallType(executable) == InstallTypeWindowsServer
            <==> executable.Some? && Contains(Lower(executable.value), "server")
    ensures InferInstallType(executable) != InstallTypeWindowsServer ==>
            InferInstallType(executable) == InstallTypeWindowsClient
  {
    if executable.Some? {
      var e := executable.value;
      var b := Base(e);
      if Contains(Lower(b), "server") {
        LowerSuffix(e, |e| - |b|);
        ContainsSuffix(Lower(e), |e| - |b|, "server");
      }
    }
  }

  /** The changelist of the first version file that exists, reads, parses
      and holds a positive changelist; 0 when there is none. */
  function VersionFromFiles(files: seq<string>, fs: FileSystem): int
  {
    if files == [] then 0
    else if Qualifies(files[0], fs) then fs.changelists[files[0]]
    else VersionFromFiles(files[1..], fs)
  }

  predicate Qualifies(file: string, fs: FileSystem)
  {
    file in fs.existing && file in fs.changelists && fs.changelists[file] > 0
  }

  /** The version is never negative; it is positive exactly when some file
      qualifies, and it is then the changelist of the first such file. */
  lemma {:induction false} VersionFromFirstQualifying(files: seq<string>, fs: FileSystem)
    ensures VersionFromFiles(files, fs) >= 0
    ensures VersionFromFiles(files, fs) == 0 <==> forall j :: 0 <= j < |files| ==> !Qualifies(files[j], fs)
    ensures VersionFromFiles(files, fs) > 0 ==>
      exists k :: 0 <= k < |files| && Qualifies(files[k], fs)
        && VersionFromFiles(files, fs) == fs.changelists[files[k]]
        && forall j :: 0 <= j < k ==> !Qualifies(files[j], fs)
  {
    if files != [] && !Qualifies(files[0], fs) {
      VersionFromFirstQualifying(files[1..], fs);
      assert forall j :: 1 <= j < |files| ==> files[1..][j - 1] == files[j];
      if VersionFromFiles(files, fs) > 0 {
        var k :| 0 <= k < |files[1..]| && Qualifies(files[1..][k], fs)
          && VersionFromFiles(files[1..], fs) == fs.changelists[files[1..][k]]
          && forall j :: 0 <= j < k ==> !Qualifies(files[1..][j], fs);
        assert files[1..][k] == files[k + 1];
        assert forall j :: 0 <= j < k + 1 ==> !Qualifies(files[j], fs) by {
          forall j | 0 <= j < k + 1 ensures !Qualifies(files[j], fs) {
            if j > 0 { assert files[1..][j - 1] == files[j]; }
          }
        }
      }
    }
  }

  // ---------------------------------------------------------------------
  // The resolver

  /** What `AddCustomInstallation` returns for `installPath`. */
  function ResolveCustom(installPath: string, fs: FileSystem): Result<Installation>
  {
    if Stat(fs, installPath) == StatNotExist then Err(InstallPathDoesNotExist(installPath))
    else
      var executable := LocateExecutable(installPath, fs);
      Ok(Installation(
        path := installPath,
        version := if executable.Some? then VersionFromFiles(VersionFiles(installPath), fs) else 0,
        installType := InferInstallType(executable),
        location := Local,
        branch := BranchStable,
        launcher := LauncherName,
        launchPath := if executable.Some? then [executable.value] else [installPath]))
  }

  /** `getGameVersionFromFile`: the loop over the version files with its
      early return. */
  method GetGameVersionFromFile(installPath: string, fs: FileSystem) returns (version: int)
    ensures version == VersionFromFiles(VersionFiles(installPath), fs)
    ensures version >= 0
  {
    var files := VersionFiles(installPath);
    VersionFromFirstQualifying(files, fs);
    var i := 0;
    while i < |files|
      invariant 0 <= i <= |files|
      invariant VersionFromFiles(files[i..], fs) == VersionFromFiles(files, fs)
    {
      assert files[i..][1..] == files[i + 1..];
      if Stat(fs, files[i]) == StatOk {
        if files[i] in fs.changelists && fs.changelists[files[i]] > 0 {
          return fs.changelists[files[i]];
        }
      }
      i := i + 1;
    }
    return 0;
  }

  /** `AddCustomInstallation`: the probe loop with its `break`, the walk
      when nothing was found, then type, version and the result. */
  method AddCustomInstallation(installPath: string, fs: FileSystem) returns (r: Result<Installation>)
    ensures r == ResolveCustom(installPath, fs)
  {
    if Stat(fs, installPath) == StatNotExist {
      return Err(InstallPathDoesNotExist(installPath));
    }
    var launchPath: seq<string> := [];
    var possibleExecutables := ExecutableProbes(installPath);
    var executableFound := false;
    var foundExecutable := "";
    var i := 0;
    while i < |possibleExecutables|
      invariant 0 <= i <= |possibleExecutables|
      invariant !executableFound ==> forall j :: 0 <= j < i ==> possibleExecutables[j] !in fs.existing
      invariant executableFound ==>
        Some(foundExecutable) == LocateExecutable(installPath, fs) && launchPath == [foundExecutable]
    {
      if Stat(fs, possibleExecutables[i]) == StatOk {
        foundExecutable := possibleExecutables[i];
        launchPath := [possibleExecutables[i]];
        executableFound := true;
        break;
      }
      i := i + 1;
    }
    if !executableFound {
      var walked := WalkRoot(installPath, fs.tree);
      if walked.Some? {
        foundExecutable := walked.value;
        launchPath := [walked.value];
        executableFound := true;
      }
    }
    if !executableFound {
      launchPath := [installPath];
    }
    assert LocateExecutable(installPath, fs) == if executableFound then Some(foundExecutable) else None;
    var installType := InstallTypeWindowsClient;
    if executableFound {
      var execName := Lower(Base(foundExecutable));
      if Contains(execName, "server") {
        installType := InstallTypeWindowsServer;
      }
      if Contains(Lower(foundExecutable), "server") {
        installType := InstallTypeWindowsServer;
      }
    }
    assert installType == InferInstallType(LocateExecutable(installPath, fs));
    var version := 0;
    if executableFound {
      version := GetGameVersionFromFile(installPath, fs);
    }
    r := Ok(Installation(installPath, version, installType, Local, BranchStable, LauncherName, launchPath));
  }

  // ---------------------------------------------------------------------
  // What the resolver promises

  /** The only error is a path that `Stat` reports as not existing; any
      other `Stat` failure goes on to resolution. */
  lemma ResolveFailsOnlyWhenMissing(installPath: string, fs: FileSystem)
    ensures ResolveCustom(installPath, fs).Err? <==> Stat(fs, installPath) == StatNotExist
    ensures ResolveCustom(installPath, fs).Err? ==>
      ResolveCustom(installPath, fs).error == InstallPathDoesNotExist(installPath)
    ensures installPath in fs.statFailing && installPath !in fs.existing ==> ResolveCustom(installPath, fs).Ok?
  {
  }

  /** Every resolved installation is a local, stable, custom installation at
      the given path with a one-element launch command and a version that is
      not negative. */
  lemma ResolvedFixedFields(installPath: string, fs: FileSystem)
    requires ResolveCustom(installPath, fs).Ok?
    ensures var inst := ResolveCustom(installPath, fs).value;
      inst.path == installPath && inst.location == Local && inst.branch == BranchStable
      && inst.launcher == CustomLauncher && |inst.launchPath| == 1 && inst.version >= 0
  {
    VersionFromFirstQualifying(VersionFiles(installPath), fs);
  }

  /** When a probe exists, the first existing probe is launched and the
      directory tree is never looked at. */
  lemma FirstProbeWins(installPath: string, fs: FileSystem, k: nat, otherTree: Entry)
    requires Stat(fs, installPath) != StatNotExist
    requires k < |ExecutableProbes(installPath)| && ExecutableProbes(installPath)[k] in fs.existing
    requires forall j :: 0 <= j < k ==> ExecutableProbes(installPath)[j] !in fs.existing
    ensures ResolveCustom(installPath, fs).value.launchPath == [ExecutableProbes(installPath)[k]]
    ensures ResolveCustom(installPath, fs.(tree := otherTree)) == ResolveCustom(installPath, fs)
  {
    var probes := ExecutableProbes(installPath);
    FirstInAt(probes, fs.existing, k);
    assert LocateExecutable(installPath, fs) == Some(probes[k]);
    assert LocateExecutable(installPath, fs.(tree := otherTree)) == Some(probes[k]);
    VersionIgnoresTree(VersionFiles(installPath), fs, otherTree);
  }

  lemma {:induction false} VersionIgnoresTree(files: seq<string>, fs: FileSystem, otherTree: Entry)
    ensures VersionFromFiles(files, fs.(tree := otherTree)) == VersionFromFiles(files, fs)
  {
    if files != [] { VersionIgnoresTree(files[1..], fs, otherTree); }
  }

  /** When no probe exists, the launch command is what the walk recorded or,
      failing that, the installation path itself; such an installation is a
      client of version 0. */
  lemma NoProbeFallsBackToWalk(installPath: string, fs: FileSystem)
    requires Stat(fs, installPath) != StatNotExist
    requires forall j :: 0 <= j < |ExecutableProbes(installPath)| ==> ExecutableProbes(installPath)[j] !in fs.existing
    ensures var inst := ResolveCustom(installPath, fs).value;
      match WalkRoot(installPath, fs.tree)
      case Some(e) => inst.launchPath == [e]
      case None => inst.launchPath == [installPath] && inst.installType == InstallTypeWindowsClient && inst.version == 0
  {
  }

  /** The resolved type is the server type exactly when an executable was
      found whose path contains "server", ignoring case; otherwise client. */
  lemma ResolvedTypeRule(installPath: string, fs: FileSystem)
    requires ResolveCustom(installPath, fs).Ok?
    ensures var t := ResolveCustom(installPath, fs).value.installType;
      (t == InstallTypeWindowsServer <==>
        LocateExecutable(installPath, fs).Some? && Contains(Lower(LocateExecutable(installPath, fs).value), "server"))
      && (t == InstallTypeWindowsServer || t == InstallTypeWindowsClient)
  {
    ServerTypeRule(LocateExecutable(installPath, fs));
  }

  /** The version is read only when an executable was found, and then it is
      the changelist of the first qualifying version file, or 0. */
  lemma ResolvedVersionRule(installPath: string, fs: FileSystem)
    requires ResolveCustom(installPath, fs).Ok?
    ensures var v := ResolveCustom(installPath, fs).value.version;
      (LocateExecutable(installPath, fs).None? ==> v == 0)
      && (LocateExecutable(installPath, fs).Some? ==> v == VersionFromFiles(VersionFiles(installPath), fs))
      && (v > 0 ==>
            exists k :: 0 <= k < |VersionFiles(installPath)|
              && Qualifies(VersionFiles(installPath)[k], fs) && v == fs.changelists[VersionFiles(installPath)[k]])
  {
    VersionFromFirstQualifying(VersionFiles(installPath), fs);
  }

  lemma JoinLonger(parts: seq<string>)
    requires |parts| >= 2 && parts[|parts| - 1] != ""
    ensures |Join(parts)| > |parts[0]|
  {
    assert parts[1..][|parts[1..]| - 1] != "";
  }

  /** An existing directory with nothing in it still resolves, to a client
      installation launched by its own path. */
  lemma EmptyDirectoryResolves(installPath: string, name: string, changelists: map<string, int>)
    ensures var fs := FileSystem({installPath}, {}, Dir(name, true, []), changelists);
      ResolveCustom(installPath, fs)
        == Ok(Installation(installPath, 0, InstallTypeWindowsClient, Local, BranchStable, CustomLauncher, [installPath]))
  {
    var fs := FileSystem({installPath}, {}, Dir(name, true, []), changelists);
    var probes := ExecutableProbes(installPath);
    forall j | 0 <= j < |probes| ensures probes[j] !in fs.existing {
      var parts := [installPath] + ProbeSuffixes[j];
      assert parts[|parts| - 1] != "";
      JoinLonger(parts);
    }
    NoProbeFallsBackToWalk(installPath, fs);
  }

  /** No probed path element contains the letter v in either case. */
  lemma SuffixesAvoidV(j: nat, i: nat)
    requires j < |ProbeSuffixes| && i < |ProbeSuffixes[j]|
    ensures 'v' !in ProbeSuffixes[j][i] && 'V' !in ProbeSuffixes[j][i]
  {
  }

  /** So the part of a probe below the installation path is non-empty and
      has no v in either case. */
  lemma ProbeTail(j: nat)
    requires j < |ProbeSuffixes|
    ensures Join(ProbeSuffixes[j]) != ""
    ensures 'v' !in Join(ProbeSuffixes[j]) && 'V' !in Join(ProbeSuffixes[j])
  {
    var parts := ProbeSuffixes[j];
    assert parts[|parts| - 1] != "";
    forall i | 0 <= i < |parts| ensures 'v' !in parts[i] && 'V' !in parts[i] {
      SuffixesAvoidV(j, i);
    }
    JoinChars(parts, 'v');
    JoinChars(parts, 'V');
  }

  /** A probe's path contains "server", ignoring case, only when the
      installation path does: nothing the resolver appends contributes to it. */
  lemma ProbeServerOnlyFromPath(installPath: string, j: nat)
    requires j < |ProbeSuffixes|
    ensures Contains(Lower(ExecutableProbes(installPath)[j]), "server") ==> Contains(Lower(installPath), "server")
  {
    var tail := Join(ProbeSuffixes[j]);
    ProbeTail(j);
    JoinCons(installPath, ProbeSuffixes[j]);
    LowerChars(tail, 'v');
    MissingChar(Lower(tail), "server", 3);
    if installPath != "" && Contains(Lower(ExecutableProbes(installPath)[j]), "server") {
      LowerConcat(installPath + [Separator], tail);
      LowerConcat(installPath, [Separator]);
      assert Lower([Separator]) == [Separator];
      ContainsSplit(Lower(installPath), Separator, Lower(tail), "server");
    }
  }

  /** A directory holding only `Server/FactoryGameServer.exe`: that file is
      neither probed nor accepted by the walk, so nothing is found and the
      installation is a client of version 0 launched by its own path. */
  lemma ServerOnlyDirectoryIsClient(installPath: string, name: string)
    ensures var fs := FileSystem({installPath, Join([installPath, "Server", "FactoryGameServer.exe"])}, {},
                        Dir(name, true, [Dir("Server", true, [File("FactoryGameServer.exe")])]), map[]);
      ResolveCustom(installPath, fs)
        == Ok(Installation(installPath, 0, InstallTypeWindowsClient, Local, BranchStable, CustomLauncher, [installPath]))
  {
    var server := Join([installPath, "Server", "FactoryGameServer.exe"]);
    var fs := FileSystem({installPath, server}, {},
                Dir(name, true, [Dir("Server", true, [File("FactoryGameServer.exe")])]), map[]);
    var probes := ExecutableProbes(installPath);
    forall j | 0 <= j < |probes| ensures probes[j] !in fs.existing {
      ProbeIsNotServer(installPath, j);
    }
    assert WalkRoot(installPath, fs.tree) == None by {
      ServerFileNotOnList();
      assert WalkEntries(Join([installPath, "Server"]), [File("FactoryGameServer.exe")], None) == None;
    }
    NoProbeFallsBackToWalk(installPath, fs);
    ResolvedFixedFields(installPath, fs);
  }

  /** No probe is the installation path or its `Server/FactoryGameServer.exe`. */
  lemma ProbeIsNotServer(installPath: string, j: nat)
    requires j < |ProbeSuffixes|
    ensures ExecutableProbes(installPath)[j] != installPath
    ensures ExecutableProbes(installPath)[j] != Join([installPath, "Server", "FactoryGameServer.exe"])
  {
    var serverTail := ["Server", "FactoryGameServer.exe"];
    assert [installPath] + serverTail == [installPath, "Server", "FactoryGameServer.exe"];
    assert serverTail[1] != "";
    assert 'v' in serverTail[0];
    JoinChars(serverTail, 'v');
    var parts := [installPath] + ProbeSuffixes[j];
    assert parts[|parts| - 1] != "";
    JoinLonger(parts);
    ProbeTail(j);
    JoinKeepsApart(installPath, ProbeSuffixes[j], serverTail);
  }

  /** Where the standard client layout keeps the executable. */
  function StandardExecutable(installPath: string): string
  {
    Join([installPath, "Binaries", "Win64", "FactoryGame.exe"])
  }

  /** That is the second probe, and the first probe is some other path. */
  lemma StandardIsSecondProbe(installPath: string)
    ensures ExecutableProbes(installPath)[1] == StandardExecutable(installPath)
    ensures ExecutableProbes(installPath)[0] != StandardExecutable(installPath)
    ensures ExecutableProbes(installPath)[0] != installPath
  {
    assert [installPath] + ProbeSuffixes[1] == [installPath, "Binaries", "Win64", "FactoryGame.exe"];
    var first := [installPath] + ProbeSuffixes[0];
    JoinLonger(first);
    ProbeTail(0);
    ProbeTail(1);
    assert '4' in ProbeSuffixes[1][1];
    JoinChars(ProbeSuffixes[1], '4');
    JoinChars(ProbeSuffixes[0], '4');
    JoinKeepsApart(installPath, ProbeSuffixes[0], ProbeSuffixes[1]);
  }

  /** The standard layout, with no version file and an installation path
      that does not itself contain "server": its executable is launched and
      the installation is a client of version 0. */
  lemma StandardLayoutIsClient(installPath: string, name: string)
    requires !Contains(Lower(installPath), "server")
    ensures var exe := StandardExecutable(installPath);
      var fs := FileSystem({installPath, exe}, {}, Dir(name, true, []), map[]);
      ResolveCustom(installPath, fs)
        == Ok(Installation(installPath, 0, InstallTypeWindowsClient, Local, BranchStable, CustomLauncher, [exe]))
  {
    var exe := StandardExecutable(installPath);
    var fs := FileSystem({installPath, exe}, {}, Dir(name, true, []), map[]);
    StandardIsSecondProbe(installPath);
    FirstProbeWins(installPath, fs, 1, fs.tree);
    ProbeServerOnlyFromPath(installPath, 1);
    ResolvedTypeRule(installPath, fs);
    VersionFromFirstQualifying(VersionFiles(installPath), fs);
  }

  /** `FindInstallationsCustom`: this launcher never discovers anything. */
  method FindInstallationsCustom() returns (installations: seq<Installation>, errors: seq<Error>)
    ensures installations == [] && errors == []
  {
    installations, errors := [], [];
  }
}
