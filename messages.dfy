/**
 * The messages `ExtensionRegistry` (extension_system/registry.py) returns
 * beside its success flags, one constructor per message the source formats.
 */
module RegistryMessages {
  import opened Strings

  /** The messages registry methods return, one constructor per f-string. */
  datatype Message =
    | NotFound(name: string)
    | AlreadyActive(name: string)
    | NoPath(name: string)
    | NoEntryPoint(path: string)
    | LoadFailed(entry: string)
    | MissingDependency(dep: string)
    | DependencyFailed(dep: string, cause: Message)
    | InitializeFailed(name: string)
    | ActivateFailed(name: string)
    | EnableError(text: string)
    | Enabled(name: string)
    | AlreadyInactive(name: string)
    | DependedOn(other: string, name: string)
    | DeactivateFailed(name: string)
    | Disabled(name: string)
    | DisableFailed(cause: Message)
    | UninstallError(text: string)
    | Uninstalled(name: string)
    | SettingsError(text: string)
    | SettingsUpdated(name: string)
    | InstallFailed(from: string, source: string)
    | InvalidSource(source: string)
    | Installed(name: string)
    | Done

  /** The text of a message as the source formats it. */
  function Text(m: Message): string {
    match m
    case NotFound(n) => "Extension " + n + " not found"
    case AlreadyActive(n) => "Extension " + n + " is already active"
    case NoPath(n) => "Extension " + n + " has no path"
    case NoEntryPoint(p) => "Could not find extension entry point in " + p
    case LoadFailed(e) => "Failed to load extension from " + e
    case MissingDependency(d) => "Missing dependency: " + d
    case DependencyFailed(d, c) => "Failed to enable dependency " + d + ": " + Text(c)
    case InitializeFailed(n) => "Failed to initialize extension " + n
    case ActivateFailed(n) => "Failed to activate extension " + n
    case EnableError(t) => "Error enabling extension: " + t
    case Enabled(n) => "Extension " + n + " enabled successfully"
    case AlreadyInactive(n) => "Extension " + n + " is already inactive"
    case DependedOn(o, n) => "Extension " + o + " depends on " + n
    case DeactivateFailed(n) => "Failed to deactivate extension " + n
    case Disabled(n) => "Extension " + n + " disabled successfully"
    case DisableFailed(c) => "Failed to disable extension: " + Text(c)
    case UninstallError(t) => "Error uninstalling extension: " + t
    case Uninstalled(n) => "Extension " + n + " uninstalled successfully"
    case SettingsError(t) => "Error updating settings: " + t
    case SettingsUpdated(n) => "Settings for " + n + " updated successfully"
    case InstallFailed(f, src) => "Failed to install extension from " + f + ": " + src
    case InvalidSource(src) => "Invalid extension source: " + src
    case Installed(n) => "Extension " + n + " installed successfully"
    case Done => ""
  }

  /** `Contains(s, s)`. */
  lemma ContainsItself(s: string)
    ensures Contains(s, s)
  {
    assert s <= s[0..];
  }

  /** The missing-dependency message names the dependency. */
  lemma MissingDependencyNamesIt(dep: string)
    ensures Contains(Text(MissingDependency(dep)), dep)
  {
    ContainsItself(dep);
    ContainsRight("Missing dependency: ", dep, dep);
  }
}
