# Installation registry of the mod manager, in Dafny

This project models the installation registry of the Satisfactory mod manager's
backend and proves properties of the model. The model has five parts:

- **Common** (`common.dfy`). The shared data model: installations, the metadata
  cache entry (`State` plus an optional `Info`), the error returns, an abstract
  file system, and the few Go string and path helpers the core uses
  (`filepath.Join`, `filepath.Base`, `strings.ToLower`, `strings.Contains`).
- **Registry** (`registry.dfy`). The `ficsitCLI` object of
  `backend/ficsitcli/wrapper.go` and `backend/ficsitcli/installs.go`, as the
  class `Registry.FicsitCli`. Its fields are:
  - the metadata map;
  - ficsit-cli's ordered installation list (path, profile, vanilla flag), with
    the selected path;
  - the game-running flag;
  - the errors local discovery reported;
  - a log of effects: save attempts, wipes, `apply` runs and frontend events.

  Each method's `ensures` gives the whole new state. The value-level functions
  beside the class specify the filters, the lookups and the choice of launch
  command. The lemmas about those functions state what the source promises.
- **Custom** (`custom.dfy`). The custom-installation resolver of
  `backend/installfinders/launchers/custom/custom.go`:
  - the nine probes, where the first existing one wins;
  - the `filepath.Walk` fallback with its allow-list of file names;
  - the fallback launch path;
  - the type inferred from a "server" substring;
  - the version read from the first of seven version files with a positive
    changelist.

  `ResolveCustom` specifies the resolver. The method `AddCustomInstallation`
  keeps the source's loop and `break`, and is proved equal to it.
- **App** (`app.dfy`). `AddCustomInstallation` of `backend/app/interactions.go`:
  resolve, then register, then re-establish a valid selection, returning early
  on each error.
- **Targets** (`targets.dfy`). The two frontend helpers of
  `frontend/src/lib/wailsTypesExtensions.ts`. They map an install type to a mod
  target. A thrown exception is an `Err`; a `null` is `None`.

Foreign code appears as parameters that give its outcome:
- ficsit-cli's add, `Save`, `Wipe`, `LockFile`, `apply` and `GetProfile`;
- `getInstallsToApply`;
- `ps.Processes()`;
- `os.Stat`;
- reading and decoding version files.

The file system is:
- a set of existing paths;
- a set of paths whose `Stat` fails other than by not existing;
- the tree `filepath.Walk` visits, with listings in lexical order;
- a map from version-file path to its decoded `Changelist`.

## Model

| member | source | states |
|---|---|---|
| Registry.IsValid | backend/ficsitcli/wrapper.go:152-164 | the definition of `isValidInstall`: a path is valid when it has a metadata entry and that entry is either a custom installation with `Info` or not marked `Invalid`; its cases are the contract of `Registry.ValidityCases` |
| Registry.ValidityCases | backend/ficsitcli/wrapper.go:152-164 | a path with no metadata entry is invalid; a custom installation with `Info` is valid whatever its state; otherwise valid means the state is not `Invalid`, so `Unknown` counts as valid |
| Registry.StoreKeepsOtherPaths | backend/ficsitcli/wrapper.go:152-164 | storing an entry at one path leaves the validity of every other path unchanged, and decides its own path's validity from the stored entry alone |
| Registry.ValidPathsMembers | backend/ficsitcli/installs.go:52-61 | `GetInstallations` yields exactly the listed paths that are valid, and never more entries than are listed |
| Registry.ValidPathsAppend | backend/ficsitcli/installs.go:52-61 | the filter distributes over concatenation, so it keeps list order (the result is a subsequence of the list) |
| Registry.FirstValidPath | backend/ficsitcli/installs.go:40-42 | the filter is empty exactly when no listed path is valid; otherwise its head belongs to the first valid entry in list order |
| Registry.FindInstall | backend/ficsitcli/installs.go:117-119 | the selected entry is the first entry whose path equals the selection, and is absent exactly when no entry has that path |
| Registry.SettledIsValid | backend/ficsitcli/installs.go:38-50 | after the selection fallback, the selection is valid exactly when it already was or some listed path is valid; with nothing valid, an invalid selection stays invalid |
| Registry.SeededListed | backend/ficsitcli/installs.go:16-22 | seeding stores `{Unknown, nil}` at every listed path, which is then present and valid, and leaves every unlisted path as it was |
| Registry.WipeTargetsRule | backend/ficsitcli/wrapper.go:166-181 | with remote installations included every listed path is wiped; without them, exactly the listed paths whose metadata exists with `Info` and location `Local` |
| Registry.WipeOutcomeRule | backend/ficsitcli/wrapper.go:182-188 | with no failing wipe, every target is wiped and the call succeeds; otherwise the wipes are a prefix of the targets ending at the first failure, whose wrapped error is returned |
| Registry.FindErrorPathsMembers | backend/ficsitcli/installs.go:77-86 | `GetInvalidInstalls` reports a path exactly when an installation-find error carries it, and reports no more paths than there are errors |
| Registry.ModsEnabled | backend/ficsitcli/installs.go:156-159 | the definition of `GetModsEnabled`: true without a selected entry, otherwise the negated vanilla flag of that entry; `Registry.ModsEnabledRoundTrip` relates it to `SetModsEnabled` |
| Registry.ModsEnabledRoundTrip | backend/ficsitcli/installs.go:137-159 | setting the selected entry's vanilla flag to `!e` makes `GetModsEnabled` return `e` |
| Registry.SelectedLockfile | backend/ficsitcli/installs.go:188-198 | the definition of `GetSelectedInstallLockfile`: nil without a selected entry, otherwise ficsit-cli's answer, error included |
| Registry.SelectedLockfileMods | backend/ficsitcli/installs.go:173-186 | the definition of `GetSelectedInstallLockfileMods`: an empty map without a selected entry or without a lock file, the error unchanged, and the lock file's mods otherwise |
| Registry.LockfileGettersAgree | backend/ficsitcli/installs.go:173-198 | the lock-file mods fail exactly when the lock file does, with the same error; they are empty when there is no selection or no lock file, and are the lock file's mods otherwise |
| Registry.SelectedProfileMods | backend/ficsitcli/installs.go:161-171 | when an entry is selected and its profile is known, the result is that profile's mods; in every other case it is the empty map |
| Registry.CustomExecutableCandidates | backend/ficsitcli/installs.go:245-253 | there are four candidate executables, none of them empty |
| Registry.LaunchCommand | backend/ficsitcli/installs.go:200-243 | the definition of the command `LaunchGame` runs, branch by branch; its properties are the contract of `Registry.LaunchChoice` |
| Registry.LaunchChoice | backend/ficsitcli/installs.go:200-243 | nothing is launched without a selected entry or without its metadata `Info`; a custom installation launches through Steam's URI with the first existing candidate, and launches nothing exactly when no candidate exists; any other installation runs its stored launch path verbatim, and nothing when that path is empty |
| Registry.ScanProcesses | backend/ficsitcli/wrapper.go:69-90 | the tick's loop answers true exactly when some process's executable is, case-sensitively, one of the six game executable names |
| Registry.SelectedProfileTargets | backend/ficsitcli/wrapper.go:139-150 | a failure to get the installs yields `None`; otherwise each target name maps to the paths of the installs with that target, in input order, and only target names that occur appear |
| Registry.FicsitCli.SeedInstallations | backend/ficsitcli/installs.go:16-22 | the seeding loop leaves the metadata equal to the seeded map, with every listed path valid |
| Registry.FicsitCli.GetInstallations | backend/ficsitcli/installs.go:52-61 | the loop returns the valid listed paths in list order |
| Registry.FicsitCli.EnsureSelectedInstallationIsValid | backend/ficsitcli/installs.go:38-50 | a valid selection is left unchanged, with no save and no event; an invalid one becomes the first valid listed path, followed by a save and the global events; with nothing valid, nothing changes |
| Registry.FicsitCli.EmitGlobals | backend/ficsitcli/wrapper.go:111-118 | the global events are emitted only if the application context is set |
| Registry.FicsitCli.EmitModsChange | backend/ficsitcli/wrapper.go:101-109 | the mods events are emitted only when the selected installation's lock file can be loaded |
| Registry.FicsitCli.AddInstallation | backend/ficsitcli/wrapper.go:191-226 | a failing ficsit-cli add returns its wrapped error and changes nothing; otherwise the entry is listed and `{Valid, Info}` (location `Local`, the given fields) is stored before the save, so a failing save returns an error but keeps the entry; only a successful save emits the global events |
| Registry.FicsitCli.ClearInstallations | backend/ficsitcli/wrapper.go:238-257 | the list, the selection and the metadata are empty afterwards, even when the save fails; only a successful save emits the global events |
| Registry.FicsitCli.WipeMods | backend/ficsitcli/wrapper.go:166-189 | the wipes and the result are those of the selected targets, stopping at the first failure |
| Registry.FicsitCli.GetInvalidInstalls | backend/ficsitcli/installs.go:77-86 | the loop returns the paths of the installation-find errors, in order |
| Registry.FicsitCli.SelectInstall | backend/ficsitcli/installs.go:92-115 | guards in source order: an invalid path is an error and changes nothing, checked before the already-selected test; a path already selected succeeds with no save and no event; a valid path that is not listed is an error; otherwise the selection becomes the path, then a save (whose failure is not returned), the global events and the mods events |
| Registry.FicsitCli.SetModsEnabled | backend/ficsitcli/installs.go:121-154 | with no selected entry it returns an error and changes nothing; otherwise it sets `vanilla = !enabled`, saves, emits and applies, returns `apply`'s outcome, and does not undo the flag, so `GetModsEnabled` then reports `enabled` |
| Registry.FicsitCli.GameRunningTick | backend/ficsitcli/wrapper.go:78-92 | if the process list cannot be read, the flag and the log are unchanged; otherwise the flag records whether a game process runs, and that value is emitted |
| Registry.FicsitCli.FindCustomInstallationExecutable | backend/ficsitcli/installs.go:245-262 | the loop returns the first existing candidate, or the empty string |
| Registry.FicsitCli.LaunchGame | backend/ficsitcli/installs.go:200-243 | the command chosen is the one `LaunchCommand` specifies |
| Custom.FindInstallationsCustom | backend/installfinders/launchers/custom/custom.go:23-27 | the finder discovers no installation and reports no error |
| Custom.AddCustomInstallation | backend/installfinders/launchers/custom/custom.go:30-144 | the probe loop with its `break`, the walk, the fallback, the type checks and the version give exactly `ResolveCustom` |
| Custom.GetGameVersionFromFile | backend/installfinders/launchers/custom/custom.go:148-173 | the loop with its early return computes the version of the seven files in order, and that version is never negative |
| Custom.VersionFromFirstQualifying | backend/installfinders/launchers/custom/custom.go:161-172 | the version is 0 exactly when no file exists with a positive changelist; otherwise it is the changelist of the first such file |
| Custom.ResolveCustom | backend/installfinders/launchers/custom/custom.go:30-144 | the definition of what `AddCustomInstallation` returns, as a function of the installation path and the file system; the method of that name is proved equal to it, and the lemmas below state its properties |
| Custom.ResolveFailsOnlyWhenMissing | backend/installfinders/launchers/custom/custom.go:31-34 | the only error is a path that `Stat` reports as not existing; any other `Stat` failure goes on to resolution |
| Custom.ResolvedFixedFields | backend/installfinders/launchers/custom/custom.go:133-141 | every result has the given path, location `Local`, branch `Stable`, launcher `Custom`, a one-element launch path and a version that is not negative |
| Custom.FirstProbeWins | backend/installfinders/launchers/custom/custom.go:43-66 | when a probe exists, the first existing probe is the launch path, and the result does not depend on the directory tree (no walk happens) |
| Custom.NoProbeFallsBackToWalk | backend/installfinders/launchers/custom/custom.go:68-106 | with no probe, the launch path is what the walk recorded; with no walk match either, it is the installation path, with type client and version 0 |
| Custom.WalkEntries | backend/installfinders/launchers/custom/custom.go:71-94 | the definition of the walk over one listing, in lexical order, with the callback's three outcomes (skip errors and directories, record an accepted file and skip the rest of its directory); its properties are the contracts of the `Walk*` and `LaterMatch*` lemmas |
| Custom.WalkRoot | backend/installfinders/launchers/custom/custom.go:71-94 | the definition of `filepath.Walk` at the installation path: the root itself is visited first, then its listing if it is a readable directory |
| Custom.WalkSound | backend/installfinders/launchers/custom/custom.go:71-94 | the walk records only files on the allow-list, ignoring directories and visit errors |
| Custom.WalkComplete | backend/installfinders/launchers/custom/custom.go:71-94 | if an allow-listed file is reachable through readable directories, the walk records something |
| Custom.WalkKeepsSome | backend/installfinders/launchers/custom/custom.go:87-90 | once a match is recorded, the rest of the walk never clears it |
| Custom.LaterMatchDecides | backend/installfinders/launchers/custom/custom.go:82-90 | when a listing holds an accepted file, the walk's result does not depend on what was recorded before it: a later match always overwrites an earlier one |
| Custom.LaterMatchOverwritesEarlier | backend/installfinders/launchers/custom/custom.go:82-90 | with accepted files in two sibling directories, the one in the later directory is kept: the walk does not stop at its first match |
| Custom.SkipDirEndsOwnDirectory | backend/installfinders/launchers/custom/custom.go:82-90 | `SkipDir` from an accepted file ends the walk of that file's own directory: a second file beside it is never recorded, whether accepted or not |
| Custom.ClientFileOnList | backend/installfinders/launchers/custom/custom.go:82-85 | `FactoryGame.exe` is on the walk's allow-list, compared after lower-casing |
| Custom.ServerFileNotOnList | backend/installfinders/launchers/custom/custom.go:82-85 | `FactoryGameServer.exe` is not on the walk's allow-list |
| Custom.InferInstallType | backend/installfinders/launchers/custom/custom.go:108-124 | the definition of the type decision: server when an executable was found and its lower-cased base name or path contains "server", client otherwise; `Custom.ServerTypeRule` simplifies it |
| Custom.ServerTypeRule | backend/installfinders/launchers/custom/custom.go:108-124 | the type is the server type exactly when an executable was found whose lower-cased path contains "server" (the base-name test adds nothing); otherwise it is client |
| Custom.ResolvedTypeRule | backend/installfinders/launchers/custom/custom.go:108-124 | the resolved type is server exactly when the executable located contains "server", ignoring case, and is client otherwise |
| Custom.ResolvedVersionRule | backend/installfinders/launchers/custom/custom.go:126-131 | the version is read only when an executable was found, and is then the changelist of a qualifying version file, or 0 |
| Custom.ProbeServerOnlyFromPath | backend/installfinders/launchers/custom/custom.go:43-55 | a probed path contains "server", ignoring case, only when the installation path itself does: none of the appended path elements contributes to it |
| Custom.EmptyDirectoryResolves | backend/installfinders/launchers/custom/custom.go:101-106 | an existing, empty directory is still admitted, as a client of version 0 launched by its own path |
| Custom.StandardLayoutIsClient | backend/installfinders/launchers/custom/custom.go:43-66 | with only `Binaries/Win64/FactoryGame.exe` present, below an installation path that does not itself contain "server", that file is launched and the installation is a client of version 0 |
| Custom.ServerOnlyDirectoryIsClient | backend/installfinders/launchers/custom/custom.go:43-106 | a directory holding only `Server/FactoryGameServer.exe` is a client launched by its own path: that file is neither probed nor on the allow-list |
| App.AddCustomInstallation | backend/app/interactions.go:110-142 | a resolver error is returned wrapped and the registry is untouched; a failing add is returned wrapped and changes nothing; a failing save is returned wrapped, the entry stays stored and the selection is not re-checked; on success the resolved installation is returned unchanged, its fields are those stored, the selection has been settled and is valid, and the log holds the registration's save and events followed, only when the selection moved, by the fallback's save and events |
| App.ResolvedHasTarget | frontend/src/lib/wailsTypesExtensions.ts:26-52 | every installation the resolver produces has a type the mapping accepts, and therefore a mod target |
| Targets.InstallTypeToTargetName | frontend/src/lib/wailsTypesExtensions.ts:9-22 | the mapping throws exactly for a type outside the four known ones |
| Targets.GetInstallationTargetName | frontend/src/lib/wailsTypesExtensions.ts:26-52 | the definition of `getInstallationTargetName`: the custom launcher's switch with its Windows default, and for every other launcher the mapping with a thrown error turned into `null`; its properties are the contracts of the three lemmas below |
| Targets.TargetNameRoundTrip | frontend/src/lib/wailsTypesExtensions.ts:9-22 | each target is reached from its canonical type; only the two Windows types share a target |
| Targets.CustomAlwaysHasTarget | frontend/src/lib/wailsTypesExtensions.ts:28-43 | a custom installation always has a target, and an unknown type gets Windows |
| Targets.OtherLauncherFollowsMapping | frontend/src/lib/wailsTypesExtensions.ts:47-52 | any other installation gets `null` exactly when the mapping throws, and the mapped target otherwise |
| Targets.KnownTypeIgnoresLauncher | frontend/src/lib/wailsTypesExtensions.ts:26-52 | for the four known types the result does not depend on the launcher and equals the mapping |

## Left out

- The action serializer (`f.action`, `actionMutex`) is concurrency. The work
  bodies of `SelectInstall` and `SetModsEnabled` run sequentially.
- The watcher's ticker and goroutine are concurrency. `ps.Processes()` is OS
  I/O. One tick is the method `GameRunningTick` over the executable names, or
  `None` when enumeration fails.
- Wails events are entries in the effect log.
  - `EmitGlobals` is one `EmittedGlobals` entry. Its payload, including
    `SelectedProfileTargets`, is not modelled.
  - `EmitModsChange` is one `EmittedModsChange` entry; its payload is not
    modelled either.
- ficsit-cli and ficsit-resolver are foreign code. Their calls are parameters
  giving their outcome:
  - ficsit-cli's `AddInstallation` appends an entry with the fallback profile
    and `vanilla` false when it succeeds;
  - `Save` never changes the model's state;
  - `GetInstallation` is the first entry with the path;
  - the path handed to ficsit-cli's add is taken to be absolute and clean, so
    the entry it lists carries the same path the metadata is stored under.
    A relative or unclean path, which ficsit-cli would make absolute, and its
    refusal of a path that is already listed, are not modelled;
  - `LockFile`, `apply`, `Wipe` and `GetProfile` are parameters.
- `Init` and `InstallationMetadata()` only wire up foreign state and settings.
  The constructor of `Registry.FicsitCli` takes the initial entries.
- The rest of `initInstallations` is not modelled: local discovery, the
  background remote discovery, and the `ensureSelectedInstallationIsValid` call
  that follows them. Discovery bodies are not part of this model.
- `executeLaunchCommand` runs a process. Only the command chosen is modelled.
- `GetInstallationsMetadata`, `GetCurrentInstallationMetadata`, `GetInstallation`
  and `GetProgress` are plain reads. They carry no property beyond the map and
  `FindInstall`.
- The parts of `backend/app/interactions.go` other than `AddCustomInstallation`
  are UI and shell integration: dialogs, window handling, explorer and browser
  calls, dbus, and the forwarded events.
- Reading and JSON-decoding a version file is the partial map `changelists`.
  A file that cannot be read or parsed has no entry.
- The walk's error from `filepath.Walk` is only logged, so it is not modelled.
- `filepath.Join` only joins the non-empty parts with `/`. It does not clean
  or normalise paths, and Windows separators are not modelled.
- `filepath.Base` here does not strip trailing separators.
- `strings.ToLower` is `Common.Lower`. It maps the ASCII capitals and the two
  other code points Go lower-cases to ASCII letters (U+0130 to 'i', the Kelvin
  sign U+212A to 'k'), and leaves every other character as it is. Go lower-cases
  other capitals to non-ASCII letters. The core only compares the lower-cased
  text with ASCII names and with "server", so those mappings cannot change any
  result, but `Lower` differs from Go's on such input.
- The generated TypeScript enum `common.InstallType` is not part of this model.
  Its four members are given the strings "Windows", "WindowsClient",
  "WindowsServer" and "LinuxServer"; the last three are the backend's constants.
- Custom.StandardLayoutIsClient: stated for installation paths that do not
  contain "server" themselves. Below such a path the standard executable would
  be typed a server (`Custom.ProbeServerOnlyFromPath` covers that case).

## Behaviour worth knowing

The model follows the code in these places:

- The comment at custom.go:90 says "Stop walking", but returning `SkipDir` from
  a file only skips the rest of that file's directory. The callback does not
  check whether a match was already found, so the last match wins
  (`Custom.LaterMatchOverwritesEarlier`).
- A directory holding only `Server/FactoryGameServer.exe` resolves as a client
  launched by its own path: that file is neither probed nor on the walk's
  allow-list (`Custom.ServerOnlyDirectoryIsClient`).
- When no listed path is valid, an invalid selection is left as it is: the
  fallback never clears it (`Registry.SettledIsValid`).
