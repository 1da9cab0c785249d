/** The frontend's "add custom installation" binding (app/interactions.go):
    resolve the directory, register the result with the registry, then
    re-establish a valid selection, returning early on either error. */
module App {
  import opened Common
  import Custom
  import Registry
  import Targets

  /** `AddCustomInstallation`; `cliAdd` and `save` are the outcomes of
      ficsit-cli's add and of the save inside the registration. */
  method AddCustomInstallation(registry: Registry.FicsitCli, installPath: string, fs: FileSystem,
                               cliAdd: Outcome, save: Outcome) returns (r: Result<Installation>)
    modifies registry`metadata, registry`installs, registry`selected, registry`effects
    ensures Custom.ResolveCustom(installPath, fs).Err? ==>
      r == Err(AddCustomFailed(installPath, Custom.ResolveCustom(installPath, fs).error))
      && registry.metadata == old(registry.metadata) && registry.installs == old(registry.installs)
      && registry.selected == old(registry.selected) && registry.effects == old(registry.effects)
    ensures Custom.ResolveCustom(installPath, fs).Ok? && cliAdd.Fail? ==>
      r == Err(RegisterFailed(AddToCliFailed(cliAdd.error)))
      && registry.metadata == old(registry.metadata) && registry.installs == old(registry.installs)
      && registry.selected == old(registry.selected) && registry.effects == old(registry.effects)
    ensures Custom.ResolveCustom(installPath, fs).Ok? && cliAdd.Pass? ==>
      var install := Custom.ResolveCustom(installPath, fs).value;
      registry.installs == old(registry.installs) + [Registry.CliInstall(installPath, registry.fallbackProfile, false)]
      && registry.metadata == old(registry.metadata)[installPath := InstallationMetadata(Valid, Some(install))]
    ensures Custom.ResolveCustom(installPath, fs).Ok? && cliAdd.Pass? && save.Fail? ==>
      r == Err(RegisterFailed(SaveInstallationsFailed(save.error)))
      && registry.selected == old(registry.selected) && registry.effects == old(registry.effects) + [Registry.Saved]
    ensures Custom.ResolveCustom(installPath, fs).Ok? && cliAdd.Pass? && save.Pass? ==>
      r == Custom.ResolveCustom(installPath, fs)
      && Registry.SelectionSettled(registry.metadata, registry.installs, old(registry.selected), registry.selected)
      && Registry.IsValid(registry.metadata, registry.selected)
      && registry.effects == old(registry.effects) + [Registry.Saved] + registry.GlobalsEvents()
           + (if registry.selected == old(registry.selected) then [] else [Registry.Saved] + registry.GlobalsEvents())
  {
    var resolved := Custom.AddCustomInstallation(installPath, fs);
    if resolved.Err? {
      return Err(AddCustomFailed(installPath, resolved.error));
    }
    var install := resolved.value;
    Custom.ResolvedFixedFields(installPath, fs);
    var err := registry.AddInstallation(install.path, install.launchPath, install.installType, install.branch,
                                        install.version, install.launcher, cliAdd, save);
    if err.Fail? {
      return Err(RegisterFailed(err.error));
    }
    assert install == Installation(install.path, install.version, install.installType, Local,
                                   install.branch, install.launcher, install.launchPath);
    ghost var metadata := registry.metadata;
    ghost var installs := registry.installs;
    ghost var before := registry.selected;
    registry.EnsureSelectedInstallationIsValid();
    assert installs[|installs| - 1].path == installPath && Registry.IsValid(metadata, installPath);
    Registry.SettledIsValid(metadata, installs, before, registry.selected);
    return Ok(install);
  }

  /** Whatever the resolver produces has a mod target in the frontend, and
      its type is one the mapping accepts. */
  lemma ResolvedHasTarget(installPath: string, fs: FileSystem)
    requires Custom.ResolveCustom(installPath, fs).Ok?
    ensures var install := Custom.ResolveCustom(installPath, fs).value;
      Targets.GetInstallationTargetName(install).Some?
      && Targets.InstallTypeToTargetName(install.installType).Ok?
      && Targets.GetInstallationTargetName(install) == Some(Targets.InstallTypeToTargetName(install.installType).value)
  {
    var install := Custom.ResolveCustom(installPath, fs).value;
    Custom.ResolvedTypeRule(installPath, fs);
    Custom.ResolvedFixedFields(installPath, fs);
    Targets.KnownTypeIgnoresLauncher(install, install);
  }
}
