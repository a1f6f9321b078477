# Open WebUI Extension Manager, modelled in Dafny

This project models the core of the Open WebUI extension manager: the
extension registry (`ExtensionRegistry`), the hook registry, the extension
base classes and their settings, the `@setting`, `@ui_component` and
`@api_route` decorators, the installer and discovery utilities, the record
persisted for every extension (`ExtensionInfo`), the mock mount-point page
of the development server, and the patcher that wires the extension system
into Open WebUI's `main.py`.

The extension directory is a value of type `FileSystem.Fs`: a map from
paths to files and directories, plus the order in which `iterdir()` lists
them. Operations that change it in place go through the `FileSystem.FileStore`
class. Every mutable object of the source is a Dafny class whose methods are
proved equal to pure specification functions:

- `Hooks.HookTable` is `hooks.py`'s module-level tables, specified by `Hooks.WithHook`,
  `Hooks.WithCallback`, `Hooks.Execute` and friends;
- `Decorators.ClassObject` is a class object that `@setting` updates;
- `Registry.ExtensionRegistry` is the registry, specified by the functions of
  `RegistryModel` (install, uninstall, disable, settings, discovery, listing,
  persistence) and `Enabling` (the recursive enable);
- `FileSystem.FileStore` is the disk.

Python's dictionaries keep insertion order, and the registry's order matters:
`disable_extension` reports the first dependent in that order, and
`list_extensions` and `initialize_all` iterate it. The model therefore keeps
the order as a sequence beside each map. The objects an extension's code
produces (module members, class constructors, lifecycle results, renderers)
are inputs of the model, fixed by the extension's code.

The model follows what the code does, including these behaviours that a
reader might not expect from the functions' names:

- `disable_extension` fails, and leaves the extension active, when
  `deactivate()` returns a false value. Only an exception from it is
  best-effort.
- `initialize_all` collects the names already flagged active and calls
  `enable_extension` on each. Every call takes the "already active" early
  return, so startup activates nothing (`RegistryModel.InitializeAllReports`).
- A cyclic dependency is not detected. The recursive enable runs until
  Python's recursion limit, modelled by a `depth` bound that yields the
  recursion error (`Enabling.EnableAtRecursionLimit`).
- A module that defines several extension classes is not refused. The
  first qualifying member in `inspect.getmembers` order (by name) is used.

## Model

| member | source | states |
|---|---|---|
| Base.GetExtensionClass | open_webui_extensions/extension_system/base.py:217-234 | the class returned reports the requested type string, or is the plain `Extension`; the plain class answers a string other than "generic" only when no class reports that string |
| Base.GetExtensionClassRoundTrip | open_webui_extensions/extension_system/base.py:217-234 | looking up the type string of any of the six classes gives that class back |
| Base.Define | open_webui_extensions/extension_system/base.py:40-140 | a fresh extension of a class reports that class's type, has no dependencies, succeeds in `initialize`, `activate` and `deactivate`, and has UI parts exactly when it is a `UIExtension` |
| Base.AnnotationSettings | open_webui_extensions/extension_system/base.py:53-67 | the entries derived from annotations are exactly the public annotated names of the MRO, each built from the class attribute `getattr` finds for it |
| Base.OverlayLastWins | open_webui_extensions/extension_system/base.py:69-73 | overlaying `_settings` records keeps every earlier key, adds each record's name, and gives a name the last record carrying it; keys without a record keep their entry |
| Base.ApplyRecords | open_webui_extensions/extension_system/base.py:69-73 | the loop over `_settings` yields the overlay of the records on the annotation entries |
| Base.SettingsProperty | open_webui_extensions/extension_system/base.py:50-75 | the keys of `settings` are the public annotations plus the `_settings` names; a record replaces the annotation entry of its name and among records of one name the last wins; every other key carries the attribute-derived entry |
| Decorators.SettingType | open_webui_extensions/extension_system/decorators.py:143 | the type string is the name of the explicit type when given, else the type name inferred from the default ("str" for None) |
| Decorators.MakeSetting | open_webui_extensions/extension_system/decorators.py:139-146 | a record carries the setting's name, both `default` and `value` set to the given default, the given options and description, and the type string of `SettingType` |
| Decorators.AttributesAfterKeeps | open_webui_extensions/extension_system/decorators.py:150-152 | an attribute the class already has keeps its value through any stack of `@setting`s; a missing one exists afterwards exactly when some decorator of the stack names it |
| Decorators.ClassObject.ApplySetting | open_webui_extensions/extension_system/decorators.py:133-154 | one application creates `_settings` if it is missing, appends exactly one record, and sets the attribute to the default only when the class lacks it |
| Decorators.ClassObject.Decorate | open_webui_extensions/extension_system/decorators.py:119-156 | a stack of decorators applies bottom-up: its records are appended in reverse source order, the attributes are those of `AttributesAfter`, and an empty stack leaves `_settings` as it was |
| Decorators.UiComponent | open_webui_extensions/extension_system/decorators.py:44-49 | the metadata keeps the component id; the mount points are the given list, or empty when none is given |
| Decorators.ApiRoute | open_webui_extensions/extension_system/decorators.py:73-78 | the metadata keeps the path; no list or an empty list of methods gives `["GET"]`, and a given non-empty list is kept as it is |
| Hooks.WithHook | open_webui_extensions/extension_system/hooks.py:20-29 | the name ends up registered; on a registered name nothing changes; a new name gets an empty list; the table invariant (every registered hook has a list without duplicates) is kept |
| Hooks.WithCallback | open_webui_extensions/extension_system/hooks.py:31-43 | the hook is registered if needed and holds the callback; other hooks' lists are untouched; a callback already present changes nothing, a new one is appended at the end, so lists never hold duplicates |
| Hooks.Execute | open_webui_extensions/extension_system/hooks.py:45-73 | an unregistered hook, or a hook with no callbacks, returns its input unchanged |
| Hooks.CallbacksFor | open_webui_extensions/extension_system/hooks.py:83-95 | an unknown hook gives the empty list; a registered one gives exactly its callback list |
| Hooks.ClearHook | open_webui_extensions/extension_system/hooks.py:97-105 | the registered names stay the same; the cleared hook has no callbacks and every other hook keeps its list |
| Hooks.RegisterFromInstance | open_webui_extensions/extension_system/hooks.py:114-140 | an object without `_hooks` changes nothing; the table invariant is kept; what it adds is described by `Hooks.RegisterFromInstanceOnly` |
| Hooks.RegisterAllAdds | open_webui_extensions/extension_system/hooks.py:20-29 | registering a list of names adds exactly those names; existing lists are unchanged and each new name gets an empty list |
| Hooks.DefaultsRegistered | open_webui_extensions/extension_system/hooks.py:142-149 | after import the registered hooks are exactly the seven default names, each with an empty list |
| Hooks.WithCallbackIdempotent | open_webui_extensions/extension_system/hooks.py:41-43 | registering the same callback twice leaves the same table as registering it once |
| Hooks.ThreadAppend | open_webui_extensions/extension_system/hooks.py:59-73 | running callbacks `a + b` equals running `b` on the result of `a`: the value is threaded through the list in order |
| Hooks.RaisingCallbackIgnored | open_webui_extensions/extension_system/hooks.py:61-71 | a callback that raises on every input can be removed without changing the result; the callbacks after it still run |
| Hooks.ExecuteAfterRegister | open_webui_extensions/extension_system/hooks.py:38-73 | a newly registered callback runs last, on the value all earlier callbacks produced |
| Hooks.RegisterPairsGrows | open_webui_extensions/extension_system/hooks.py:129-140 | registering an object's hooks only appends: every earlier list is a prefix of the list afterwards |
| Hooks.RegisterPairsRegisters | open_webui_extensions/extension_system/hooks.py:129-140 | every `_hooks` entry naming a method of the object has that bound method among its hook's callbacks |
| Hooks.WithCallbackOnly | open_webui_extensions/extension_system/hooks.py:31-43 | registering a callback adds no hook but its own and no callback but the one given |
| Hooks.RegisterPairsHooksOnly | open_webui_extensions/extension_system/hooks.py:129-139 | registering an object's `_hooks` entries adds only hooks named by an entry whose method resolves |
| Hooks.RegisterPairsOnly | open_webui_extensions/extension_system/hooks.py:129-139 | every callback after registering the entries was there before or is the resolved method of an entry for that hook; entries whose method does not resolve add nothing |
| Hooks.RegisterFromInstanceOnly | open_webui_extensions/extension_system/hooks.py:124-139 | the same for `register_hooks_from_instance`: nothing is added but the object's resolved `_hooks` entries |
| Hooks.RegisterHooks | open_webui_extensions/extension_system/hooks.py:142-149 | registering the names one by one gives the table of `RegisterAll` |
| Hooks.HookTable.constructor | open_webui_extensions/extension_system/hooks.py:142-149 | the module's tables right after import: the default hooks, no callbacks |
| Hooks.HookTable.RegisterHook | open_webui_extensions/extension_system/hooks.py:20-29 | the new tables are those of `WithHook` |
| Hooks.HookTable.RegisterCallback | open_webui_extensions/extension_system/hooks.py:31-43 | the new tables are those of `WithCallback` |
| Hooks.HookTable.ExecuteHook | open_webui_extensions/extension_system/hooks.py:45-73 | the loop returns `Execute`: the input threaded through the hook's callbacks, raising ones skipped |
| Hooks.HookTable.RegisteredHooks | open_webui_extensions/extension_system/hooks.py:75-81 | returns the set of registered names |
| Hooks.HookTable.CallbacksForHook | open_webui_extensions/extension_system/hooks.py:83-95 | returns `CallbacksFor` of the tables |
| Hooks.HookTable.ClearHookCallbacks | open_webui_extensions/extension_system/hooks.py:97-105 | the new tables are those of `ClearHook` |
| Hooks.HookTable.ClearAllHooks | open_webui_extensions/extension_system/hooks.py:107-112 | both tables are empty afterwards, default hooks included |
| Hooks.HookTable.RegisterHooksFromInstance | open_webui_extensions/extension_system/hooks.py:114-140 | the new tables are those of `RegisterFromInstance` |
| Utils.EntryPoint | open_webui_extensions/extension_system/utils.py:318-325 | the entry file is `__init__.py` when present, else `extension.py`, else `main.py`; None exactly when none of the three is present |
| Utils.VisibleDirs | open_webui_extensions/extension_system/utils.py:287 | the subdirectories kept are exactly the listed directories whose name does not start with '.' |
| Utils.FirstWithEntry | open_webui_extensions/extension_system/utils.py:294-296 | the index of the first directory holding an entry file, and no earlier one holds one; -1 when none does |
| Utils.FindExtensionDir | open_webui_extensions/extension_system/utils.py:263-298 | the base when it holds an entry file; a raise when it cannot be listed; else the first visible subdirectory with an entry file (the single-subdirectory branch agrees with it); a found directory holds an entry file and is never hidden; NotFound only when no visible subdirectory has one |
| Utils.FirstQualifying | open_webui_extensions/extension_system/utils.py:88-93 | the first member in name order that is a non-abstract `Extension` subclass other than `Extension`, and no earlier member is one |
| Utils.FindExtensionClass | open_webui_extensions/extension_system/utils.py:73-99 | the class of a module-level `extension` instance wins; otherwise the first qualifying member; None only when no member qualifies |
| Utils.GetExtensionInstance | open_webui_extensions/extension_system/utils.py:101-123 | a module-level `extension` instance is returned as it is; otherwise the first qualifying class is instantiated, None when there is none or its constructor raises |
| Utils.ModuleNameByStem | open_webui_extensions/extension_system/utils.py:59 | two paths get the same module name exactly when their file stems agree |
| Utils.PackagesShareModuleName | open_webui_extensions/extension_system/utils.py:59 | every package entry file gets the module name `open_webui_extension___init__` |
| Utils.LoadModule | open_webui_extensions/extension_system/utils.py:49-71 | a loaded module is what a Python file at that path executes to |
| Utils.LoadExtension | open_webui_extensions/extension_system/utils.py:125-138 | no module gives no extension; otherwise the result is `get_extension_instance` of the module |
| Utils.FirstCandidate | open_webui_extensions/extension_system/utils.py:163-166 | the first entry in listing order named `extension.py`, `main.py` or `<dirname>.py`, and no earlier one is |
| Utils.ModulePathIn | open_webui_extensions/extension_system/utils.py:157-166 | a directory with `__init__.py` reports it; otherwise the reported file is a main-module candidate of the directory |
| Utils.CollectSound | open_webui_extensions/extension_system/utils.py:156-166 | every reported path is the module path of a directory of the listing |
| Utils.CollectComplete | open_webui_extensions/extension_system/utils.py:156-166 | every listed directory that has a module path reports it |
| Utils.Collect | open_webui_extensions/extension_system/utils.py:156-166 | at most one path per listed entry |
| Utils.Discover | open_webui_extensions/extension_system/utils.py:140-170 | when `installed/` is not a directory afterwards, no path is reported |
| Utils.DiscoverReports | open_webui_extensions/extension_system/utils.py:152-166 | a path is reported exactly when it is the module path of a directory directly inside `installed/` |
| Utils.ScanForMainModule | open_webui_extensions/extension_system/utils.py:163-166 | the `glob` loop returns the first main-module candidate, or None |
| Utils.FindModulePath | open_webui_extensions/extension_system/utils.py:158-166 | the module path of one directory, as `ModulePathIn` defines it |
| Utils.CollectModulePaths | open_webui_extensions/extension_system/utils.py:149-166 | the loop over `installed/` returns exactly `Collect` of the listing |
| Utils.DiscoverExtensions | open_webui_extensions/extension_system/utils.py:140-170 | the filesystem afterwards and the paths returned are those of `Discover` |
| Utils.Locate | open_webui_extensions/extension_system/utils.py:310-334 | success means the extension directory was found, its entry file chosen and loaded; failure means one of those steps failed |
| Utils.Cleared | open_webui_extensions/extension_system/utils.py:339-341 | nothing at the target leaves the filesystem as it is; otherwise the tree at the target is gone and every other node is kept |
| Utils.InstallDirectory | open_webui_extensions/extension_system/utils.py:300-349 | failing to locate the extension changes nothing; once located, when clearing `target/installed/<name>` and copying the extension directory there both succeed the result is that directory; a failure leaves the filesystem unchanged or as the clearing left it |
| Utils.InstallDirectoryReplaces | open_webui_extensions/extension_system/utils.py:336-346 | after a successful install the install directory holds exactly the extension's source tree, and the filesystem stays well formed |
| Utils.InstallFromDirectory | open_webui_extensions/extension_system/utils.py:300-349 | the method's result and filesystem are those of `InstallDirectory` |
| Utils.InstallZip | open_webui_extensions/extension_system/utils.py:351-381 | a failed extraction yields None; after an extraction the result is that of installing from the scratch directory, and when removing the scratch directory succeeds nothing under it is left, while a failed removal yields None with the filesystem the install left |
| Utils.InstallFromZip | open_webui_extensions/extension_system/utils.py:351-381 | the method's result and filesystem are those of `InstallZip` |
| Utils.InstallUrl | open_webui_extensions/extension_system/utils.py:383-416 | a failed download yields None; a download named `.zip` or holding a ZIP archive succeeds exactly when installing the ZIP succeeds and the downloaded file can be removed, with the ZIP install's result, and the downloaded file is gone afterwards; any other download yields None and the file is gone |
| Utils.InstallFromUrl | open_webui_extensions/extension_system/utils.py:383-416 | the method's result and filesystem are those of `InstallUrl` |
| Utils.Setup | open_webui_extensions/extension_system/utils.py:23-47 | afterwards `installed/` and `temp/` are directories and `registry.json` exists; an existing registry file is kept as it was, a missing one is written as `{"extensions": {}}` |
| Utils.SetupEstablishes | open_webui_extensions/extension_system/utils.py:32-45 | a successful setup leaves the directory, `installed/`, `temp/` and `registry.json` in place |
| Utils.SetupKeeps | open_webui_extensions/extension_system/utils.py:32-45 | on a directory already set up, setup changes nothing |
| Utils.SetupIdempotent | open_webui_extensions/extension_system/utils.py:23-47 | running setup twice gives the result of running it once |
| Utils.SetupExtensionsDirectory | open_webui_extensions/extension_system/utils.py:23-47 | reports success exactly when `Setup` succeeds and leaves its filesystem |
| FileSystem.Children | open_webui_extensions/extension_system/utils.py:156 | `iterdir()` lists only entries directly inside the directory, and every such entry of a well-formed filesystem |
| FileSystem.MakeDirs | open_webui_extensions/extension_system/utils.py:35 | `makedirs(exist_ok=True)` keeps every existing node unchanged, leaves the path a directory, and adds no node longer than the path |
| FileSystem.MakeDir | open_webui_extensions/extension_system/utils.py:38-39 | `mkdir` adds exactly one directory node |
| FileSystem.WriteFile | open_webui_extensions/extension_system/utils.py:44-45 | writing a file replaces exactly the node at its path |
| FileSystem.Prune | open_webui_extensions/extension_system/utils.py:341 | `rmtree` removes exactly the tree at the path and keeps every other node unchanged |
| FileSystem.CopyTreeExact | open_webui_extensions/extension_system/utils.py:344 | after `copytree` into a fresh destination, the destination tree is exactly the source tree and nothing outside it changes |
| FileSystem.FileStore.DeleteTree | open_webui_extensions/extension_system/utils.py:341 | the filesystem object after `rmtree`, or unchanged when it fails |
| FileSystem.FileStore.DeleteFile | open_webui_extensions/extension_system/utils.py:410-411 | the filesystem object after `os.remove`, or unchanged when it fails |
| FileSystem.FileStore.CreateDirs | open_webui_extensions/extension_system/utils.py:366 | the filesystem object after `makedirs`, or unchanged when it fails |
| FileSystem.FileStore.CreateDir | open_webui_extensions/extension_system/utils.py:38-39 | the filesystem object after `mkdir`, or unchanged when it fails |
| FileSystem.FileStore.Write | open_webui_extensions/extension_system/utils.py:44-45 | the filesystem object after writing the file, or unchanged when it fails |
| FileSystem.FileStore.Copy | open_webui_extensions/extension_system/utils.py:344 | the filesystem object after `copytree`, or unchanged when it fails |
| FileSystem.FileStore.Extract | open_webui_extensions/extension_system/utils.py:255-261 | the filesystem object after `extractall`, or unchanged when it fails |
| FileSystem.PutEntries | open_webui_extensions/extension_system/utils.py:256-257 | after a successful `extractall` every member's path exists with the member's kind (file or directory), and every node that existed keeps its kind |
| FileSystem.PutEntry | open_webui_extensions/extension_system/utils.py:256-257 | one member: its missing parent directories are created, a file member carries the archived content, and existing nodes are untouched except a file the member overwrites |
| FileSystem.ExtractCreatesParent | open_webui_extensions/extension_system/utils.py:256-257 | an archive whose only member is `sub/name`, without an entry for `sub`, extracts into an empty directory, creating `sub` as a directory holding the member |
| Paths.BaseNameOfJoin | open_webui_extensions/extension_system/utils.py:363 | the base name of `dir/name` is `name` |
| Paths.DirNameOfJoin | open_webui_extensions/extension_system/registry.py:206 | the directory of `dir/name` is `dir`, so `discover` records the extension's directory |
| Strings.FirstBreak | open_webui_extensions/patch_openwebui.py:93 | a line of `splitlines()` ends at the first line-break character |
| Strings.JoinLinesContains | open_webui_extensions/patch_openwebui.py:162 | text contained in one line is contained in the lines joined with '\n' |
| RegistryInfo.ToDictIdentity | open_webui_extensions/extension_system/registry.py:46-61 | the accessors `from_dict` uses read name, version, description and author back from `to_dict` |
| RegistryInfo.ToDictKind | open_webui_extensions/extension_system/registry.py:46-61 | type, path and active are read back from `to_dict` |
| RegistryInfo.ToDictDates | open_webui_extensions/extension_system/registry.py:46-61 | install date, update date and error are read back from `to_dict` |
| RegistryInfo.ToDictCollections | open_webui_extensions/extension_system/registry.py:46-61 | dependencies and settings are read back from `to_dict` |
| RegistryInfo.FromDict | open_webui_extensions/extension_system/registry.py:63-80 | a record is read only when it is a dict holding the four required keys, and the entry takes its `name` |
| RegistryInfo.FromDictToDict | open_webui_extensions/extension_system/registry.py:46-80 | `from_dict(to_dict(info))` reproduces all twelve fields |
| RegistryInfo.FromDictDefaults | open_webui_extensions/extension_system/registry.py:66-79 | a record with only the four required keys gets type "generic", no path, inactive, no dependencies, no settings, both dates `now`, no error |
| RegistryInfo.FromDictNeedsName | open_webui_extensions/extension_system/registry.py:67 | a record without `name` is not read |
| RegistryInfo.Normalise | open_webui_extensions/extension_system/registry.py:88-97 | a dict-valued setting is kept as it is; any other value v becomes `{name, default: v, value: v, type, description}` |
| RegistryInfo.NormalisedSettings | open_webui_extensions/extension_system/registry.py:86-97 | the normalised settings have the same keys, each normalised |
| RegistryInfo.FromExtension | open_webui_extensions/extension_system/registry.py:82-108 | identity fields, type and dependencies come from the object, settings are normalised, the path is the given one, the entry is inactive without error, and both dates are `now` |
| RegistryInfo.NormaliseSettings | open_webui_extensions/extension_system/registry.py:86-97 | the settings loop yields `NormalisedSettings` |
| RegistryInfo.MakeInfo | open_webui_extensions/extension_system/registry.py:82-108 | the method yields `FromExtension` |
| RegistryMessages.MissingDependencyNamesIt | open_webui_extensions/extension_system/registry.py:425 | the missing-dependency message contains the dependency's name |
| RegistryModel.Insert | open_webui_extensions/extension_system/registry.py:215 | assigning a dict key adds it to the key order once; a known key keeps its place |
| RegistryModel.Remove | open_webui_extensions/extension_system/registry.py:360 | deleting a dict key removes exactly that key from the order |
| RegistryModel.Register | open_webui_extensions/extension_system/registry.py:317-318 | the entry and the object are stored under the object's name, the name joins the order, nothing else changes, and the registry's shape is kept |
| RegistryModel.LoadFrom | open_webui_extensions/extension_system/registry.py:397-415 | no path (or an empty one) refuses; a path without entry file names the directory; a load names the entry file chosen by the `isfile` preference |
| RegistryModel.Enable | open_webui_extensions/extension_system/registry.py:372-462 | an unknown name fails with "not found" and an active one succeeds with "already active", both changing nothing; success leaves the entry active; directory, order and files never change; `RegistryModel.EnableTable` makes every `Enabling` lemma about failures hold of the registry |
| RegistryModel.EnableTable | open_webui_extensions/extension_system/registry.py:372-462 | enabling on the registry state is the enable step on its table of entries, objects and hooks |
| RegistryModel.EnableFailureKeepsEntry | open_webui_extensions/extension_system/registry.py:434-459 | an inactive extension whose object does not activate is refused, and its entry stays inactive, as it was or with the error its object raised |
| RegistryModel.FirstDependent | open_webui_extensions/extension_system/registry.py:489-493 | the position in insertion order of the first active extension whose live object depends on the name, and none before it does |
| RegistryModel.Deactivated | open_webui_extensions/extension_system/registry.py:495-513 | `deactivate()` returning false fails and leaves the extension active; otherwise the entry becomes inactive, other keys stay, objects and hooks are untouched |
| RegistryModel.FirstDependentNone | open_webui_extensions/extension_system/registry.py:489-493 | the dependents scan finds none exactly when no active extension with a live object depends on the name |
| RegistryModel.DisableOutcome | open_webui_extensions/extension_system/registry.py:475-516 | disable succeeds exactly when the name is known and is inactive, or has no dependent and `deactivate()` does not return false; a failure changes nothing |
| RegistryModel.DisableRefused | open_webui_extensions/extension_system/registry.py:488-493 | a refusal names the first dependent in insertion order and changes nothing |
| RegistryModel.DisableSucceeds | open_webui_extensions/extension_system/registry.py:495-513 | a successful disable of an active extension only marks it inactive, recording the message when `deactivate()` raised |
| RegistryModel.EnableThenDisable | open_webui_extensions/extension_system/registry.py:372-516 | enabling an inactive extension and disabling it again gives back its entry with the error cleared, when nothing depends on it and `deactivate()` succeeds |
| RegistryModel.UninstallRefused | open_webui_extensions/extension_system/registry.py:341-352 | an unknown name fails with "not found"; an active extension with a live object whose disable fails aborts with that message; neither changes anything |
| RegistryModel.UninstallSucceeds | open_webui_extensions/extension_system/registry.py:346-367 | a successful uninstall removes the name from both maps and the order, keeps every other entry and object, and removes the tree at the recorded path |
| RegistryModel.SetValues | open_webui_extensions/extension_system/registry.py:540-542 | setting `value` of known settings never adds or removes a key |
| RegistryModel.SetValuesExact | open_webui_extensions/extension_system/registry.py:540-542 | the loop raises exactly when an update names a setting that is not a dict; otherwise every known setting carries the last value given for it and unknown keys are ignored |
| RegistryModel.SetAttributes | open_webui_extensions/extension_system/registry.py:545-549 | `setattr` changes only attributes of the object the object already has (a method attribute becomes a plain value) and nothing else of it; the assigned values and the read-only error are stated by `RegistryModel.SetAttributesExact` and `RegistryModel.SetAttributesRaises` |
| RegistryModel.FirstReadOnly | open_webui_extensions/extension_system/registry.py:547-549 | the position of the first update naming a read-only property, or the number of updates: no update before it is read-only |
| RegistryModel.SetAttributesRaises | open_webui_extensions/extension_system/registry.py:547-549 | the loop raises exactly when some update names a read-only property, with Python's "can't set attribute" message |
| RegistryModel.SetAttributesExact | open_webui_extensions/extension_system/registry.py:547-549 | the updates before the first read-only one are assigned: each existing attribute or method they name carries the last value given for it, every other attribute keeps its value, and assigned methods become attributes |
| RegistryModel.UpdateSettingsShape | open_webui_extensions/extension_system/registry.py:530-557 | an update changes only the settings of the one entry; every other entry is unchanged |
| RegistryModel.UpdateSettingsKeepsValid | open_webui_extensions/extension_system/registry.py:530-557 | an update keeps the registry's shape and touches neither the order, the files, the hooks nor the set of live objects |
| RegistryModel.UpdateSettingsStates | open_webui_extensions/extension_system/registry.py:540-549 | the new state has the updated settings, plus the updated object when it is live |
| RegistryModel.UpdateSettingsValues | open_webui_extensions/extension_system/registry.py:540-554 | with all updates assignable every known setting carries its last value, and the reply fails only when assigning an attribute of the live object raised |
| RegistryModel.MergeOneExact | open_webui_extensions/extension_system/registry.py:204-216 | a known name keeps its `active`, settings and install date while the other fields come from the fresh load; a new name gets the fresh inactive entry; other entries are untouched |
| RegistryModel.MergeAllKeeps | open_webui_extensions/extension_system/registry.py:202-218 | a name no discovered object carries keeps its entry and its object |
| RegistryModel.MergeAllStays | open_webui_extensions/extension_system/registry.py:202-218 | known names with a live object keep both |
| RegistryModel.MergeAllRemembers | open_webui_extensions/extension_system/registry.py:202-218 | over the whole loop, a name already in the table keeps its `active` flag, its settings and its install date |
| RegistryModel.MergeAllAdds | open_webui_extensions/extension_system/registry.py:202-218 | every discovered name ends up with an entry and a live object |
| RegistryModel.Discover | open_webui_extensions/extension_system/registry.py:191-223 | discovery keeps the registry's shape, its directory and the hooks |
| RegistryModel.ListExtensions | open_webui_extensions/extension_system/registry.py:249-260 | the listing is the entries in insertion order, after a discovery when the table was empty |
| RegistryModel.ListExtensionsComplete | open_webui_extensions/extension_system/registry.py:249-260 | the listing holds every entry exactly once, and a non-empty table is listed without discovery |
| RegistryModel.Classify | open_webui_extensions/extension_system/registry.py:276-293 | a source starting with `http://` or `https://` is a URL; otherwise a directory is a directory source; otherwise a `.zip` file is a ZIP source; anything else is invalid |
| RegistryModel.Loaded | open_webui_extensions/extension_system/registry.py:295-311 | a placed extension comes from loading the entry file chosen by the `isfile` preference in the install directory |
| RegistryModel.Place | open_webui_extensions/extension_system/registry.py:274-311 | an invalid source is refused without touching the filesystem; a placement names a directory that was copied in and loaded |
| RegistryModel.Record | open_webui_extensions/extension_system/registry.py:313-323 | success exactly when something was placed; success records the name; a failure keeps the table; the shape is kept |
| RegistryModel.Install | open_webui_extensions/extension_system/registry.py:262-326 | an invalid source fails with its message; success exactly when a name is returned; failure changes at most the files |
| RegistryModel.RecordSucceeds | open_webui_extensions/extension_system/registry.py:313-323 | a successful record stores the placed object under its name as a fresh inactive entry and changes no other entry or object |
| RegistryModel.InstallSucceeds | open_webui_extensions/extension_system/registry.py:262-323 | a successful install records the loaded object under its name as a fresh inactive entry at the install path, and changes no other entry or object |
| RegistryModel.InstallThenUninstall | open_webui_extensions/extension_system/registry.py:262-367 | uninstalling a freshly installed extension needs no disable step: it either removes both its entry and its object or fails only in removing its directory |
| RegistryModel.ActiveNames | open_webui_extensions/extension_system/registry.py:571 | the names collected are exactly those flagged active, in insertion order |
| RegistryModel.EnableEach | open_webui_extensions/extension_system/registry.py:574-577 | one result per name, and the registry's shape is kept |
| RegistryModel.EnableEachActive | open_webui_extensions/extension_system/registry.py:393-394 | enabling names that are all active changes nothing and answers each with "already active" |
| RegistryModel.EnableActiveReports | open_webui_extensions/extension_system/registry.py:571-577 | enabling the names flagged active reports exactly those names, each as an "already active" success |
| RegistryModel.InitializeAllReports | open_webui_extensions/extension_system/registry.py:559-579 | `initialize_all` returns exactly the names flagged active, each with the "already active" success of the early return |
| RegistryModel.Saved | open_webui_extensions/extension_system/registry.py:177-187 | the saved records are the `to_dict` of each entry, in insertion order |
| RegistryModel.Load | open_webui_extensions/extension_system/registry.py:164-175 | loading keeps the registry's shape and touches only entries and order |
| RegistryModel.LoadEntries | open_webui_extensions/extension_system/registry.py:171-173 | loading records that read back as entries of new names adds exactly those entries and keeps the others |
| RegistryModel.LoadRestores | open_webui_extensions/extension_system/registry.py:164-175 | loading records that read back as the entries of a registry, into an empty table, gives back that registry's entries and order |
| RegistryModel.SaveThenLoad | open_webui_extensions/extension_system/registry.py:164-189 | saving a registry and loading the file into an empty table gives back the same registry |
| Enabling.Prepare | open_webui_extensions/extension_system/registry.py:396-420 | the object is the live one, else the one loaded from the recorded path; a refusal happens exactly when neither exists |
| Enabling.ActiveStays | open_webui_extensions/extension_system/registry.py:372-462 | an extension active before an enable step stays active |
| Enabling.HooksAfter | open_webui_extensions/extension_system/registry.py:436-441 | hook registration keeps the hook table's invariant |
| Enabling.Activate | open_webui_extensions/extension_system/registry.py:434-459 | success exactly when `initialize` and `activate` both return true, with the reply `Enabled`; then the entry is active with no error, otherwise it is updated as `AfterFailure` says; only this entry and the hooks change |
| Enabling.ActivateSteps | open_webui_extensions/extension_system/registry.py:434-459 | activation is an enable step and changes no other entry |
| Enabling.Enable | open_webui_extensions/extension_system/registry.py:372-462 | unknown name: "not found", no change; active name: "already active", no change; success leaves the entry active; every step only turns entries active, records errors and adds live objects, and leaves each entry as it was, activated, or with the error its own object raised |
| Enabling.EnableInactive | open_webui_extensions/extension_system/registry.py:396-462 | past the early returns, success leaves the entry active |
| Enabling.EnableLoaded | open_webui_extensions/extension_system/registry.py:419-459 | with a live object, success leaves the entry active |
| Enabling.EnableDeps | open_webui_extensions/extension_system/registry.py:422-432 | a successful dependency loop leaves every dependency active, and one with all dependencies already active changes nothing |
| Enabling.EnableDep | open_webui_extensions/extension_system/registry.py:427-432 | enabling an inactive dependency one call deeper, on success every later dependency is active |
| Enabling.DependencyStep | open_webui_extensions/extension_system/registry.py:428-432 | a turn of the loop for an installed, inactive dependency enables it one call deeper; a failure stops the loop with a message naming the dependency, a success goes on with the next dependency |
| Enabling.EnableSucceeds | open_webui_extensions/extension_system/registry.py:422-454 | a successful enable activated its object after every dependency was active; the entry is active with the error cleared and nothing else in it changes |
| Enabling.EnableWithDependenciesActive | open_webui_extensions/extension_system/registry.py:434-459 | with all dependencies active, enabling is one activation: success exactly when both lifecycle calls succeed, and entry, objects and hooks change as that activation says |
| Enabling.EnableMissingDependency | open_webui_extensions/extension_system/registry.py:423-425 | a first dependency that is not installed stops the enable before anything is activated, with a message naming it |
| Enabling.EnableRefused | open_webui_extensions/extension_system/registry.py:397-415 | an extension whose object cannot be had is refused with the message of the failed step, and nothing changes |
| Enabling.EnableDependencyFails | open_webui_extensions/extension_system/registry.py:428-432 | when enabling the first, inactive dependency one call deeper fails, the enable fails with that failure wrapped in a message naming the dependency, keeping the table the failed attempt left, in which the extension's entry is as it was, activated, or with the error its own object raised |
| Enabling.EnableAtRecursionLimit | open_webui_extensions/extension_system/registry.py:428-430 | an inactive first dependency needing one more nested call than the stack allows fails with Python's recursion error, before anything is activated |
| Enabling.StopsAtBefore | open_webui_extensions/extension_system/registry.py:423-432 | a stop of the dependency loop after a turn that enabled a dependency is a stop of the loop before it |
| Enabling.DepsFailure | open_webui_extensions/extension_system/registry.py:423-432 | a failed dependency loop stopped at some position: every earlier dependency is installed (and active, when no nested call is left), and that one is missing with the missing-dependency message, or inactive with the recursion error or a failure message naming it |
| Enabling.DepsAtZero | open_webui_extensions/extension_system/registry.py:428-430 | with no nested call left, the loop succeeds only when every dependency is already active |
| Enabling.DepsMissingAt | open_webui_extensions/extension_system/registry.py:423-425 | the loop reaching a dependency that is not installed, past active ones, fails with the message naming it |
| Enabling.DepsLimitAt | open_webui_extensions/extension_system/registry.py:428-430 | the loop reaching an inactive dependency with no nested call left, past active ones, fails with the recursion error |
| Enabling.DepsMissingMeans | open_webui_extensions/extension_system/registry.py:423-425 | a missing-dependency message of the loop names a dependency in the list that is not installed |
| Enabling.EnableFailure | open_webui_extensions/extension_system/registry.py:422-459 | a failed enable of an extension whose object is at hand either got through its dependencies and failed to activate, with the activation's message, or stopped at a dependency as `Enabling.DepsFailure` says |
| Enabling.EnableNeedsInstalled | open_webui_extensions/extension_system/registry.py:423-425 | a dependency that is not installed, at any position of the list, makes the enable fail |
| Enabling.MissingDependencyMeans | open_webui_extensions/extension_system/registry.py:423-425 | a missing-dependency reply names a dependency of the extension that is not installed, and its text contains that name |
| Enabling.EnableMissingDependencyAt | open_webui_extensions/extension_system/registry.py:423-425 | a dependency at any position that is not installed, after dependencies that are all active, fails the enable with the message naming it |
| Enabling.EnableAtRecursionLimitAt | open_webui_extensions/extension_system/registry.py:428-430 | an inactive dependency at any position, after active ones, fails the enable with the recursion error when no nested call is left |
| Enabling.EnableFailsInactive | open_webui_extensions/extension_system/registry.py:434-459 | an extension whose object does not activate is never enabled: the reply fails and the entry stays inactive, as it was or with the error its object raised |
| Enabling.EnableActivationFails | open_webui_extensions/extension_system/registry.py:434-459 | once the dependencies are enabled, an object that does not activate fails the enable with its activation's message, and a raise records the raised text as the entry's error |
| Registry.AssignValues | open_webui_extensions/extension_system/registry.py:540-542 | the loop yields `SetValues` |
| Registry.AssignAttributes | open_webui_extensions/extension_system/registry.py:545-549 | the loop yields `SetAttributes` |
| Registry.FindDependent | open_webui_extensions/extension_system/registry.py:489-493 | the loop finds `FirstDependent` |
| Registry.StoreRecords | open_webui_extensions/extension_system/registry.py:171-173 | the loop stores what `Store` does with the records read by `from_dict` |
| Registry.MergePaths | open_webui_extensions/extension_system/registry.py:202-218 | the loop yields `MergeAll` |
| Registry.ExtensionRegistry.constructor | open_webui_extensions/extension_system/registry.py:124-162 | the registry after set-up of its directory, starting empty and loading the stored records |
| Registry.ExtensionRegistry.LoadRegistry | open_webui_extensions/extension_system/registry.py:164-175 | the state becomes `Load` of the records |
| Registry.ExtensionRegistry.Discover | open_webui_extensions/extension_system/registry.py:191-223 | the state becomes `RegistryModel.Discover`, and the extensions map is returned |
| Registry.ExtensionRegistry.ListExtensions | open_webui_extensions/extension_system/registry.py:249-260 | reply and state are those of `RegistryModel.ListExtensions` |
| Registry.ExtensionRegistry.DisableExtension | open_webui_extensions/extension_system/registry.py:464-516 | reply and state are those of `Disable` |
| Registry.ExtensionRegistry.Deactivate | open_webui_extensions/extension_system/registry.py:495-513 | reply and state are those of `Deactivated` |
| Registry.ExtensionRegistry.UninstallExtension | open_webui_extensions/extension_system/registry.py:328-370 | reply and state are those of `Uninstall` |
| Registry.ExtensionRegistry.RemoveExtension | open_webui_extensions/extension_system/registry.py:354-367 | reply and state are those of `Removal` |
| Registry.ExtensionRegistry.UpdateExtensionSettings | open_webui_extensions/extension_system/registry.py:518-557 | reply and state are those of `UpdateSettings` |
| Registry.ExtensionRegistry.FetchSource | open_webui_extensions/extension_system/registry.py:277-293 | the copy step for the source's kind, as `Fetch` defines it |
| Registry.ExtensionRegistry.LoadInstalled | open_webui_extensions/extension_system/registry.py:295-311 | the placement `Loaded` gives |
| Registry.ExtensionRegistry.PlaceSource | open_webui_extensions/extension_system/registry.py:274-311 | placement and filesystem are those of `Place` |
| Registry.ExtensionRegistry.RecordPlacement | open_webui_extensions/extension_system/registry.py:313-323 | reply and state are those of `Record` |
| Registry.ExtensionRegistry.InstallExtension | open_webui_extensions/extension_system/registry.py:262-326 | reply and state are those of `Install` |
| Registry.ExtensionRegistry.ActivateLoaded | open_webui_extensions/extension_system/registry.py:434-459 | reply and table are those of `Enabling.Activate` |
| Registry.ExtensionRegistry.RunActivate | open_webui_extensions/extension_system/registry.py:443-454 | reply and table are those of `Enabling.Activated` |
| Registry.ExtensionRegistry.EnsureDependency | open_webui_extensions/extension_system/registry.py:423-432 | one turn of the dependency loop, as `Enabling.EnableDeps` takes it |
| Registry.ExtensionRegistry.EnableDependency | open_webui_extensions/extension_system/registry.py:428-432 | the nested call, as `Enabling.Enable` one call deeper |
| Registry.ExtensionRegistry.EnableDependencies | open_webui_extensions/extension_system/registry.py:422-432 | reply and table are those of `Enabling.EnableDeps` |
| Registry.ExtensionRegistry.EnableLive | open_webui_extensions/extension_system/registry.py:419-459 | reply and table are those of `Enabling.EnableLoaded` |
| Registry.ExtensionRegistry.EnableExtension | open_webui_extensions/extension_system/registry.py:372-462 | reply and table are those of `Enabling.Enable`; directory, order and files are kept |
| Registry.ExtensionRegistry.EnableInactive | open_webui_extensions/extension_system/registry.py:396-462 | reply and table are those of `Enabling.EnableInactive` |
| Registry.ExtensionRegistry.LoadAndEnable | open_webui_extensions/extension_system/registry.py:397-420 | loading the object, then the rest, as `Enabling.EnableInactive` |
| Registry.ExtensionRegistry.InitializeAll | open_webui_extensions/extension_system/registry.py:559-579 | results and state are those of `RegistryModel.InitializeAll` |
| Registry.ExtensionRegistry.EnableInOrder | open_webui_extensions/extension_system/registry.py:574-577 | results and state are those of `EnableEach` |
| Registry.ExtensionRegistry.EnableOne | open_webui_extensions/extension_system/registry.py:575-577 | one name's result, as `RegistryModel.Enable` replies |
| DevServer.ComponentsAppend | open_webui_extensions/dev_server.py:85-101 | the component loop appends to the mount point's list exactly the rendered entries of its ids, in order, and leaves the other lists alone |
| DevServer.PointsAppend | open_webui_extensions/dev_server.py:81-101 | the mount-point loop appends to each list the entries of the points of that name, in mount-point order |
| DevServer.PointsKeys | open_webui_extensions/dev_server.py:81-83 | a mount point is added on first use, once, after the known ones |
| DevServer.CollectAppend | open_webui_extensions/dev_server.py:68-103 | the loop over extensions appends each list's entries in extension-list order |
| DevServer.CollectKeys | open_webui_extensions/dev_server.py:68-83 | the mount points afterwards are the earlier ones plus those the contributing extensions use |
| DevServer.GatheredShape | open_webui_extensions/dev_server.py:61-103 | the table holds exactly `sidebar`, `chat`, `main`, `footer` and the mount points used; each list is the entries for its name in extension, mount-point and component order |
| DevServer.RenderAllOrigin | open_webui_extensions/dev_server.py:85-101 | an entry appears exactly when a listed id has a renderer that returned a dict with `html` |
| DevServer.PointEntriesOrigin | open_webui_extensions/dev_server.py:81-101 | an entry of a mount point comes from some mount point of that name |
| DevServer.EntriesForOrigin | open_webui_extensions/dev_server.py:68-101 | an entry comes from some extension in the list |
| DevServer.EntryOrigin | open_webui_extensions/dev_server.py:68-101 | an entry is listed exactly when an active `ui` extension with a live object lists that id under that mount point and its renderer returned a dict with that `html`; each entry carries id, extension name and html |
| DevServer.SkippedContributesNothing | open_webui_extensions/dev_server.py:69-77 | an inactive extension, one without live object, or one not of type "ui" contributes nothing |
| DevServer.JoinHtmlDefined | open_webui_extensions/dev_server.py:169 | joining a section's fragments succeeds exactly when every fragment is a string |
| DevServer.PageShows | open_webui_extensions/dev_server.py:165-193 | the page has four sections, for sidebar, main, chat and footer in that order, each the joined html of that mount point's entries; it is built exactly when all four joins succeed |
| DevServer.RenderComponents | open_webui_extensions/dev_server.py:85-101 | the loop over component ids yields `Components` |
| DevServer.RenderPoints | open_webui_extensions/dev_server.py:81-101 | the loop over mount points yields `Points` |
| DevServer.MockMountpoint | open_webui_extensions/dev_server.py:56-193 | the table built is `Gathered` of the listing and the live objects, and the page is `Page` of that table |
| Patcher.AppLineSearches | open_webui_extensions/patch_openwebui.py:94-97 | `app_pattern.search` matches a line exactly when `app`, spaces, `=`, spaces, `FastAPI`, spaces and `(` start at some position |
| Patcher.FirstApp | open_webui_extensions/patch_openwebui.py:96-97 | the first matching line at or after the start, and no line before it matches; None when none does |
| Patcher.StatementEndStops | open_webui_extensions/patch_openwebui.py:99-103 | the statement end scan never passes a line at which the running parenthesis count has dropped to 0 or below |
| Patcher.AppCreationShape | open_webui_extensions/patch_openwebui.py:82-107 | None exactly when no line matches; otherwise (i, e) with i the first match, i <= e < len(lines), the count positive before e and at most 0 at e unless e is the last line |
| Patcher.FindAppCreation | open_webui_extensions/patch_openwebui.py:82-107 | the nested loops return `AppCreation` of the content's lines |
| Patcher.LastImportShape | open_webui_extensions/patch_openwebui.py:138-141 | the last import line is the last line whose stripped form starts with `import ` or `from `, or 0 when there is none |
| Patcher.InsertBlockSplices | open_webui_extensions/patch_openwebui.py:144-146 | three `list.insert`s at consecutive indices splice the block in at that index (at the end when the index is past it) |
| Patcher.ImportsAfterLastImport | open_webui_extensions/patch_openwebui.py:143-146 | the three import lines follow the last import line |
| Patcher.PatchLinesShape | open_webui_extensions/patch_openwebui.py:144-158 | the patched lines are six longer: the import-extended lines with the init block spliced in at `end_line + 1` |
| Patcher.PatchRefuses | open_webui_extensions/patch_openwebui.py:124-162 | content holding the marker: success without backup or write; a failed backup: failure; no app creation: failure after the backup, without write; a write happens exactly when none of these apply, for either splice |
| Patcher.PatchedHasImport | open_webui_extensions/patch_openwebui.py:145 | the patched lines hold the plugin import line, for either splice |
| Patcher.ImportLineHasMarker | open_webui_extensions/patch_openwebui.py:125-126 | the import line contains the marker string |
| Patcher.PatchedHasMarker | open_webui_extensions/patch_openwebui.py:144-162 | the written content contains the marker, for either splice |
| Patcher.PatchIdempotent | open_webui_extensions/patch_openwebui.py:124-127 | patching written output again succeeds without backup or write, for either splice |
| Patcher.SpliceImports | open_webui_extensions/patch_openwebui.py:144-146 | the three inserts after the last import line give `WithImports` of the lines |
| Patcher.SpliceInitAfter | open_webui_extensions/patch_openwebui.py:155-158 | the three inserts after the (shifted) statement end give the corrected splice |
| Patcher.PatchMainFile | open_webui_extensions/patch_openwebui.py:109-172 | the method's outcome (success, backup made, content written) is `Patch` of the content with the corrected splice |
| Patcher.InitBeforeStatementEnd | open_webui_extensions/patch_openwebui.py:155-158 | as written, when the app statement follows the last import, the initialization line sits two lines after `end_line` of the extended list, and the statement's last line lands after it |
| Patcher.InitMisplacedExample | open_webui_extensions/patch_openwebui.py:149-158 | as written, for an import line followed by a one-line app creation, `app = initialize_extension_system(app)` comes before both the plugin import and `app = FastAPI(...)` |
| Patcher.FixedInitFollowsStatement | open_webui_extensions/patch_openwebui.py:155-158 | corrected: six lines longer, and the init block directly follows the app statement's last line |
| Patcher.FixedKeepsImports | open_webui_extensions/patch_openwebui.py:143-158 | corrected, when the imports come before the statement's end: the import block stays intact after the last import and before the init block |
| Patcher.LateImportSplicesAgree | open_webui_extensions/patch_openwebui.py:143-158 | when an import line follows the statement's end, the corrected and the as-written splices give the same lines: the init block directly after the statement, then the import block right after the last import line |

## Left out

- JSON encoding of `registry.json`: persistence is modelled by the sequence of `to_dict` records that `_save_registry` writes and `_load_registry` reads (`RegistryModel.Saved`, `RegistryModel.Load`), not by bytes.
- The environment variable and home-directory probing in `ExtensionRegistry.__init__` (registry.py lines 134-150): the model takes the chosen directory as a parameter.
- Registry.ExtensionRegistry.constructor: requires that setting up the directory succeeds; when `setup_extensions_directory` fails, the source's `__init__` raises, and the model does not construct a registry.
- Threads and the re-entrant lock, the singleton `__new__`, `initialize_registry` and `get_registry`: they only serialise access and share one object.
- Clocks: `datetime.now().isoformat()` is the parameter `now`.
- Logging, and the exact text of Python exception messages (a read-only property yields the message `can't set attribute`, and a setting that is not a dict yields Python's item-assignment message).
- Aliasing between `info.settings` and the live object's settings: the model updates the entry's settings and the object's attributes separately, as the source's two loops do.
- `disable_extension` does not remove the extension's hook callbacks, in the source as in the model.
- registry.py line 22 imports `register_hooks_from_instance` from `decorators`, which does not define it; the model uses the function of `hooks.py`.
- `get_extension_info` and `get_extension_instance` of the registry are plain lookups of the `extensions` and `instances` maps, which the class exposes as fields.
- Registry.ExtensionRegistry.EnableExtension and the other registry methods carry their contract as equality with the `Enabling` and `RegistryModel` functions; the properties are stated as lemmas about those functions.
- RegistryInfo.FromDict: a record whose optional field has a type other than the one `to_dict` writes is refused, where Python would store the value as it is.
- `load_extension_config`, `save_extension_config` and `download_from_url` are file and network I/O: the download is the parameter `download` of `Utils.InstallUrl`.
- Importing a module and `inspect.getmembers`: a module is the list of members its code defines (`FileSystem.Module`), and `Utils.LoadModule` only states that a loaded module is what the file's code executes to.
- The `static_dir` property of the base class: it only computes a path from `inspect`.
- The `@tool` and `@hook` decorators only attach their metadata to a function; functions are not values in the model, and `functools.wraps` transparency is not modelled.
- The `@hook` decorator never fills an instance's `_hooks` table, so `register_hooks_from_instance` only sees tables an extension builds itself; the model takes `_hooks` as part of the object.
- The abstract capability methods of the base classes (`components`, `routes`, `tools`, `styles`, `load_model`, `generate` and so on) other than the UI parts the dev server reads, and `uninstall()`, which the core never calls.
- The dev server's FastAPI wiring, its HTML template text and its logging: the model builds the mount-point table and the list of page sections; the extension listing and live objects are parameters rather than a registry call, and a renderer is an abstract outcome.
- The patcher's file reads and writes become the `content` and `backupOk` parameters; a failing write and universal-newline translation are not modelled.
- The patcher's regular expression is modelled by `Patcher.PatternAt`, with `Strings.IsSpace` as Python's Unicode whitespace class.
- `find_openwebui_main_path`, `backup_file` and `restore_backup` are file-system probing and copying outside the extension directory.
- Patcher.PatchMainFile: places the init block right after the application statement (the corrected splice); the splice as written is kept as `Patcher.PatchLines` and the `AsWritten` choice of `Patcher.Patch`.
- FileSystem.FileStore.Extract: a failed `extractall` leaves the filesystem unchanged, where Python keeps the members written before the failing one; member names are not sanitised (`..` and absolute names are taken as they are), and a directory member is marked by its node kind rather than a trailing `/`.
- Paths are strings joined with "/"; symbolic links, permissions and path normalisation are not modelled.
- Enabling.Enable: when the dependency loop fails, the extension's own entry is proved only to be as `Enabling.Settled` allows: unchanged, activated, or with its own object's error. That it stays unchanged would need a rank on the dependency graph: a dependency cycle leads a nested enable back to the extension itself, and the model does not rule out that this nested call activates it.
- Enabling.EnableDependencyFails: gives the exact reply only for the first dependency; for a later one, `Enabling.EnableFailure` and `Enabling.DepsFailure` give the stopping position and the form of the message, not the table the nested attempt left.
- Hooks.WithCallback: a bound method is identified by its extension's name and its method name, not by the object. After `discover` replaces an extension's live object and the extension is disabled and enabled again, Python registers a second bound method (of the new object) and `execute_hook` calls both; the model counts that callback once.
- Decorators.ClassObject.ApplySetting: a class has no base classes in the model. Python's `hasattr(cls, "_settings")` also finds a `_settings` list inherited from a base class, and `append` then grows the base class's list, which every subclass shares.
- RegistryModel.ReadOnly: the read-only names are the fixed properties of the base classes; properties an extension subclass adds, and a subclass that overrides one of them with a plain attribute, are not modelled.

## Findings

| source | as written | input that shows it | evidently intended | confidence | as-written member | corrected member |
|---|---|---|---|---|---|---|
| open_webui_extensions/patch_openwebui.py:155-158 | the init lines are inserted at `end_line + 1` of the list already extended by the three import lines, with `end_line` computed on the original text | a `main.py` holding `import os` and then `app = FastAPI()`: the patched lines have `app = initialize_extension_system(app)` at index 3, before the plugin import at index 5 and before `app = FastAPI()` at index 7 | the init lines go directly after the last line of the application statement; when an import line follows the statement (an indented local import), both splices agree and the plugin import still lands after the init block, which the corrected splice does not change either (`Patcher.LateImportSplicesAgree`) | not executed | Patcher.InitMisplacedExample | Patcher.FixedInitFollowsStatement |
