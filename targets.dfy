/** The frontend helpers that map an installation's type to the mod-target
    name used when resolving mods (wailsTypesExtensions.ts). A thrown
    exception is an `Err`; a `null` return is `None`. */
module Targets {
  import opened Common

  datatype TargetName = Windows | WindowsServer | LinuxServer

  /** The members of the generated `common.InstallType` enum. The three that
      mirror the backend's constants carry the same value. */
  const InstallTypeWindows: string := "Windows"
  const InstallTypeWindowsClient: string := Common.InstallTypeWindowsClient
  const InstallTypeWindowsServer: string := Common.InstallTypeWindowsServer
  const InstallTypeLinuxServer: string := Common.InstallTypeLinuxServer

  predicate IsKnownInstallType(t: string)
  {
    t == InstallTypeWindows || t == InstallTypeWindowsClient
    || t == InstallTypeWindowsServer || t == InstallTypeLinuxServer
  }

  /** The install type each target is reached from first by the switch. */
  function CanonicalInstallType(target: TargetName): string
  {
    match target
    case Windows => InstallTypeWindowsClient
    case WindowsServer => InstallTypeWindowsServer
    case LinuxServer => InstallTypeLinuxServer
  }

  function InstallTypeToTargetName(installType: string): (r: Result<TargetName>)
    ensures r.Err? <==> !IsKnownInstallType(installType)
    ensures r.Err? ==> r.error == InvalidInstallType
  {
    if installType == InstallTypeWindows then Ok(Windows)
    else if installType == InstallTypeWindowsClient then Ok(Windows)
    else if installType == InstallTypeWindowsServer then Ok(WindowsServer)
    else if installType == InstallTypeLinuxServer then Ok(LinuxServer)
    else Err(InvalidInstallType)
  }

  function GetInstallationTargetName(install: Installation): (r: Option<TargetName>)
  {
    if install.launcher == CustomLauncher then
      if install.installType == InstallTypeWindows then Some(Windows)
      else if install.installType == InstallTypeWindowsClient then Some(Windows)
      else if install.installType == InstallTypeWindowsServer then Some(WindowsServer)
      else if install.installType == InstallTypeLinuxServer then Some(LinuxServer)
      else Some(Windows)
    else
      match InstallTypeToTargetName(install.installType)
      case Ok(t) => Some(t)
      case Err(_) => None
  }

  /** Every target is reached from its canonical install type, and the two
      Windows types are the only ones that share a target. */
  lemma TargetNameRoundTrip(target: TargetName, installType: string)
    ensures InstallTypeToTargetName(CanonicalInstallType(target)) == Ok(target)
    ensures InstallTypeToTargetName(installType) == Ok(target) ==>
      installType == CanonicalInstallType(target) || (target == Windows && installType == InstallTypeWindows)
  {
  }

  /** A custom installation always gets a target; an unknown type gets Windows. */
  lemma CustomAlwaysHasTarget(install: Installation)
    requires install.launcher == CustomLauncher
    ensures GetInstallationTargetName(install).Some?
    ensures !IsKnownInstallType(install.installType) ==> GetInstallationTargetName(install) == Some(Windows)
  {
  }

  /** Any other installation gets null exactly when the mapping throws, and
      the mapped value otherwise. */
  lemma OtherLauncherFollowsMapping(install: Installation)
    requires install.launcher != CustomLauncher
    ensures GetInstallationTargetName(install).None? <==> InstallTypeToTargetName(install.installType).Err?
    ensures GetInstallationTargetName(install).Some? ==>
      InstallTypeToTargetName(install.installType) == Ok(GetInstallationTargetName(install).value)
  {
  }

  /** For the four known types the launcher does not matter. */
  lemma KnownTypeIgnoresLauncher(a: Installation, b: Installation)
    requires a.installType == b.installType && IsKnownInstallType(a.installType)
    ensures GetInstallationTargetName(a) == GetInstallationTargetName(b)
    ensures GetInstallationTargetName(a) == Some(InstallTypeToTargetName(a.installType).value)
  {
  }
}
