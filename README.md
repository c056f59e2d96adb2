# OptimizeDevDriveDialog: moving a package cache to a Dev Drive

Dev Home's Customization page offers to move a developer tool's package cache
(for example the npm or NuGet cache) to a folder on a Dev Drive. The dialog
`OptimizeDevDriveDialog` takes a folder from a text box, moves the cache
directory tree there with a recursive `MoveDirectory`, and then points the
tool's user environment variable at the new folder.

This project models that relocation in Dafny:

- `paths.dfy` (module `Paths`): paths as sequences of components, the
  Windows extended path-length limit (32767 characters), and how the dialog's
  text becomes a path.
- `system_io.dfy` (module `SystemIO`): the filesystem as a map from path to
  `File(content)` or `Dir`. It models the calls the routine makes:
  `Directory.Exists`, `CreateDirectory`, `GetFiles`, `GetDirectories`,
  `File.Move` (no overwrite) and `Directory.Delete(path, true)`. Each is a
  function of the old filesystem, plus a method of class `FileSystem` that
  performs it. The listing order and the set of files whose move fails come
  from the platform (`Platform`). The first component of a path is its volume
  (a drive such as `C:` or a UNC share), which `CreateDirectory` cannot
  create. A move onto the file's own name is a rename to the same name and
  succeeds without changing anything.
- `system_environment.dfy` (module `SystemEnvironment`):
  `Environment.SetEnvironmentVariable` with the user target. It keeps the
  runtime's argument checks, and an empty value deletes the variable.
- `relocation.dfy` (module `Relocation`): `MoveDirectory` as a function, one
  step per step of the C#. Every level catches its own exceptions.
- `optimize_dev_drive_dialog.dfy` (module `DevDriveDialog`): class
  `OptimizeDevDriveDialog`, whose methods are the C# methods. `MoveDirectory`
  has the two `foreach` loops as `while` loops and is proved to compute
  `Relocation.MoveTree`. Its file loop is the method `MoveEachFile`, which
  both routines share. The same class holds the corrected routine
  (`MoveDirectoryChecked`, `ConfirmRelocation`).
- `relocation_properties.dfy` (module `RelocationProperties`): what the
  routine as written does. This covers the file loop, what a call can touch,
  what it never changes, and the consequences of catch-and-continue.
- `strict_relocation.dfy` (module `StrictRelocation`): the corrected
  routine, where a nested failure stops every enclosing level. It is proved
  never to lose a file of the source. Every entry outside the source,
  including one already under the target at a clashing name, stays unchanged.
- `dialog_properties.dfy` (module `DialogProperties`): the confirm button,
  as written and as corrected.

The routine's own code is followed throughout. Each level is a `try` block
whose `catch` only logs, so an exception ends the work of its own level only.
The enclosing level goes on to its remaining subdirectories and then deletes
its source recursively. A design in which the relocation is all-or-nothing
and the variable is written only after a complete move is not what the code
does. That design is modelled separately, as the corrected routine.

## Model

| member | source | states |
|---|---|---|
| SystemIO.CreateDir | tools/Customization/DevHome.Customization/Views/OptimizeDevDriveDialog.xaml.cs:78 | CreateDirectory succeeds iff the path is within the length limit, no ancestor (or the path itself) is a file and its volume exists; then the path and all its ancestors are directories and nothing else changes |
| SystemIO.CreateExistingIsNoOp | tools/Customization/DevHome.Customization/Views/OptimizeDevDriveDialog.xaml.cs:75-79 | in a well-formed tree, creating a directory that exists changes nothing, so the Exists test only saves a call |
| SystemIO.CreateDirIsIdempotent | tools/Customization/DevHome.Customization/Views/OptimizeDevDriveDialog.xaml.cs:75-79 | creating the same directory twice is the same as creating it once |
| SystemIO.CreateDirPreservesWellFormed | tools/Customization/DevHome.Customization/Views/OptimizeDevDriveDialog.xaml.cs:78 | creating a directory keeps the tree well formed (every entry in a directory, all paths within the limit) |
| SystemIO.ChildNames | tools/Customization/DevHome.Customization/Views/OptimizeDevDriveDialog.xaml.cs:82-83 | a name is listed iff the directory has an entry of that kind under it |
| SystemIO.ListNames | tools/Customization/DevHome.Customization/Views/OptimizeDevDriveDialog.xaml.cs:82-83 | GetFiles/GetDirectories succeed iff the directory exists, and then list exactly the names of its immediate files (subdirectories) |
| SystemIO.ListingOfNothing | tools/Customization/DevHome.Customization/Views/OptimizeDevDriveDialog.xaml.cs:82-83 | an empty directory lists as the empty sequence |
| SystemIO.FileMove | tools/Customization/DevHome.Customization/Views/OptimizeDevDriveDialog.xaml.cs:90 | File.Move succeeds only for an existing file, a target name within the limit that is free or the file's own, and an unfaulted source; it fails whenever another entry holds the target name; on success the content is at the target and the source is gone (a move onto the file's own name changes nothing), and nothing else changes |
| SystemIO.FileMovePreservesWellFormed | tools/Customization/DevHome.Customization/Views/OptimizeDevDriveDialog.xaml.cs:90 | a successful move keeps the tree well formed |
| SystemIO.DeleteTree | tools/Customization/DevHome.Customization/Views/OptimizeDevDriveDialog.xaml.cs:102 | Delete(path, true) succeeds iff the path is an existing directory other than the root; it then removes exactly the entries under it |
| SystemIO.DeleteTreePreservesWellFormed | tools/Customization/DevHome.Customization/Views/OptimizeDevDriveDialog.xaml.cs:102 | a recursive delete keeps the tree well formed |
| SystemIO.FileSystem.Exists | tools/Customization/DevHome.Customization/Views/OptimizeDevDriveDialog.xaml.cs:75 | true iff the path is a directory within the length limit |
| SystemIO.FileSystem.CreateDirectory | tools/Customization/DevHome.Customization/Views/OptimizeDevDriveDialog.xaml.cs:78 | performs CreateDir, or throws and changes nothing |
| SystemIO.FileSystem.GetFiles | tools/Customization/DevHome.Customization/Views/OptimizeDevDriveDialog.xaml.cs:82 | returns the listing of immediate files |
| SystemIO.FileSystem.GetDirectories | tools/Customization/DevHome.Customization/Views/OptimizeDevDriveDialog.xaml.cs:83 | returns the listing of immediate subdirectories |
| SystemIO.FileSystem.Move | tools/Customization/DevHome.Customization/Views/OptimizeDevDriveDialog.xaml.cs:90 | performs FileMove, or throws and changes nothing |
| SystemIO.FileSystem.Delete | tools/Customization/DevHome.Customization/Views/OptimizeDevDriveDialog.xaml.cs:102 | performs DeleteTree, or throws and changes nothing |
| Paths.ParsePath | tools/Customization/DevHome.Customization/Views/OptimizeDevDriveDialog.xaml.cs:124-130 | the text names no path iff it is empty; every component of the path it names is non-empty |
| Paths.ParsePathJoin | tools/Customization/DevHome.Customization/Views/OptimizeDevDriveDialog.xaml.cs:124-130 | a path of non-empty components without separators, written out with a backslash between components, parses back to exactly those components |
| SystemEnvironment.SetUserVariable | tools/Customization/DevHome.Customization/Views/OptimizeDevDriveDialog.xaml.cs:114 | the call succeeds iff the name passes the runtime's checks; a non-empty value is stored under the name, an empty one deletes it, other variables are untouched |
| SystemEnvironment.UserEnvironment.SetEnvironmentVariable | tools/Customization/DevHome.Customization/Views/OptimizeDevDriveDialog.xaml.cs:114 | performs SetUserVariable, or throws and changes nothing |
| Relocation.EnsureTarget | tools/Customization/DevHome.Customization/Views/OptimizeDevDriveDialog.xaml.cs:75-79 | once it succeeds the target is a directory; an existing target is left as it is; only the target's ancestors can change |
| Relocation.MoveFiles | tools/Customization/DevHome.Customization/Views/OptimizeDevDriveDialog.xaml.cs:86-91 | the file loop moves at most all names, and reports an exception iff it stopped before the end |
| Relocation.MoveTree | tools/Customization/DevHome.Customization/Views/OptimizeDevDriveDialog.xaml.cs:71-108 | MoveDirectory as a function, step for step; a call that reports success has removed its source, which is never the root (that nothing under it is left either, and the rest of its behaviour, are the RelocationProperties lemmas below) |
| Relocation.MoveSubdirs | tools/Customization/DevHome.Customization/Views/OptimizeDevDriveDialog.xaml.cs:94-99 | the subdirectory loop, one nested call per name, each swallowing its own failure; specified by RelocationProperties.MoveSubdirsFrame, MoveSubdirsOutsideUnchanged and MoveSubdirsPreservesWellFormed |
| RelocationProperties.MoveFilesEffect | tools/Customization/DevHome.Customization/Views/OptimizeDevDriveDialog.xaml.cs:86-91 | the loop moves a prefix of the listing: each moved file was movable and is now under the target with its content and gone from the source; the loop stops at the first file that cannot be moved; nothing else changes |
| RelocationProperties.MoveFirstFile | tools/Customization/DevHome.Customization/Views/OptimizeDevDriveDialog.xaml.cs:90 | a successful File.Move of the first listed name means that file was movable, its content is now under the target and its source name is gone, and the other listed names are untouched |
| RelocationProperties.MoveFilesStepFrame | tools/Customization/DevHome.Customization/Views/OptimizeDevDriveDialog.xaml.cs:86-91 | after one successful move, the rest of the loop changes nothing but the names moved so far, the first one included |
| RelocationProperties.MoveFilesStaysInside | tools/Customization/DevHome.Customization/Views/OptimizeDevDriveDialog.xaml.cs:86-91 | the file loop changes nothing outside the source and the target directories |
| RelocationProperties.MoveFilesOnlyRemovesSources | tools/Customization/DevHome.Customization/Views/OptimizeDevDriveDialog.xaml.cs:86-91 | the file loop never changes or removes an entry outside the source directory |
| RelocationProperties.MoveFilesKeepsDirectories | tools/Customization/DevHome.Customization/Views/OptimizeDevDriveDialog.xaml.cs:86-91 | the file loop never removes a directory |
| RelocationProperties.MoveFilesPreservesWellFormed | tools/Customization/DevHome.Customization/Views/OptimizeDevDriveDialog.xaml.cs:86-91 | the file loop keeps the tree well formed |
| RelocationProperties.MoveTreeFrame | tools/Customization/DevHome.Customization/Views/OptimizeDevDriveDialog.xaml.cs:71-108 | MoveDirectory(src, tgt) changes nothing outside the source tree, the target tree and the target's ancestors |
| RelocationProperties.OutsideIsOutsideSubdirs | tools/Customization/DevHome.Customization/Views/OptimizeDevDriveDialog.xaml.cs:94-99 | a path outside the source lies under none of the subdirectories the loop recurses into |
| RelocationProperties.MoveSubdirsFrame | tools/Customization/DevHome.Customization/Views/OptimizeDevDriveDialog.xaml.cs:94-99 | the subdirectory loop changes only what the call for one of its names can reach |
| RelocationProperties.OutsideSourceUnchanged | tools/Customization/DevHome.Customization/Views/OptimizeDevDriveDialog.xaml.cs:71-108 | MoveDirectory never changes or removes an entry outside its source tree; it only adds |
| RelocationProperties.MoveSubdirsOutsideUnchanged | tools/Customization/DevHome.Customization/Views/OptimizeDevDriveDialog.xaml.cs:94-99 | the subdirectory loop never changes or removes an entry outside the subtrees it recurses into |
| RelocationProperties.MoveTreePreservesWellFormed | tools/Customization/DevHome.Customization/Views/OptimizeDevDriveDialog.xaml.cs:71-108 | MoveDirectory keeps the tree well formed, whatever fails |
| RelocationProperties.MoveSubdirsPreservesWellFormed | tools/Customization/DevHome.Customization/Views/OptimizeDevDriveDialog.xaml.cs:94-99 | the subdirectory loop keeps the tree well formed |
| RelocationProperties.CollisionAbortsLevel | tools/Customization/DevHome.Customization/Views/OptimizeDevDriveDialog.xaml.cs:86-107 | when a file of the level cannot be moved, the call reports it, visits no subdirectory and does not delete the source; every subdirectory of the source and its counterpart under the target are untouched; that file and the entry holding its name under the target are untouched; every file of the level is still at its place or moved with its content |
| RelocationProperties.LevelFilesMove | tools/Customization/DevHome.Customization/Views/OptimizeDevDriveDialog.xaml.cs:86-91 | when every file of the level can be moved, the loop completes, every file is under the target with its content, and the source directory stays |
| RelocationProperties.LevelCompletesDespiteSubdirectoryFailures | tools/Customization/DevHome.Customization/Views/OptimizeDevDriveDialog.xaml.cs:94-107 | whatever the nested calls do, a level whose own files all move reports success and leaves nothing under its source |
| RelocationProperties.SubdirsKeepCollidingEntry | tools/Customization/DevHome.Customization/Views/OptimizeDevDriveDialog.xaml.cs:94-99 | the subdirectory loop leaves `tgt\d\f` alone when `src\d\f` is a file that would have to go there |
| RelocationProperties.NestedCollisionLosesFile | tools/Customization/DevHome.Customization/Views/OptimizeDevDriveDialog.xaml.cs:94-107 | with all files of the level movable and `src\d\f` colliding with an existing `tgt\d\f`, the call reports success, `src\d\f` is gone, `tgt\d\f` keeps its old content, so that file is kept nowhere |
| RelocationProperties.TargetInsideSourceLosesEverything | tools/Customization/DevHome.Customization/Views/OptimizeDevDriveDialog.xaml.cs:71-108 | with the target inside the source and the level's files movable, the call reports success and no file of the source is left, neither at its place nor under the target |
| RelocationProperties.MoveEmptyDirectory | tools/Customization/DevHome.Customization/Views/OptimizeDevDriveDialog.xaml.cs:71-103 | moving an empty directory to a target outside it creates the target and removes the source, and nothing else; if the target cannot be created nothing changes |
| RelocationProperties.MoveFilesOntoThemselves | tools/Customization/DevHome.Customization/Views/OptimizeDevDriveDialog.xaml.cs:86-91 | with the source as its own target and no failing move, the file loop completes and changes nothing |
| RelocationProperties.SelfTargetDeletesSource | tools/Customization/DevHome.Customization/Views/OptimizeDevDriveDialog.xaml.cs:71-108 | with the source as its own target and the level's files not failing, the call reports success, nothing under the source is left, and nothing outside it changes |
| RelocationProperties.AfterTarget | tools/Customization/DevHome.Customization/Views/OptimizeDevDriveDialog.xaml.cs:75-79 | once the target directory is in place, MoveDirectory computes the same from the tree with the target created as from the original tree, so a second call finds nothing left to create |
| RelocationProperties.SourceDeletedExactlyWhenLevelCompletes | tools/Customization/DevHome.Customization/Views/OptimizeDevDriveDialog.xaml.cs:86-107 | a call reports success iff its source directory is gone afterwards, and then nothing under it is left |
| StrictRelocation.MoveTreeStrict | tools/Customization/DevHome.Customization/Views/OptimizeDevDriveDialog.xaml.cs:71-108 | the corrected routine as a function; a call that reports success has left nothing under its source (its other properties are the StrictRelocation lemmas below) |
| StrictRelocation.MoveSubdirsStrict | tools/Customization/DevHome.Customization/Views/OptimizeDevDriveDialog.xaml.cs:94-99 | the corrected subdirectory loop, stopping at the first nested failure and reporting it; specified by StrictRelocation.MoveSubdirsStrictFrame and MoveSubdirsStrictKeeps |
| StrictRelocation.StrictAgreesWhenNothingFails | tools/Customization/DevHome.Customization/Views/OptimizeDevDriveDialog.xaml.cs:71-108 | when the corrected routine succeeds, the routine as written computes exactly the same |
| StrictRelocation.SubdirsStrictAgreesWhenNothingFails | tools/Customization/DevHome.Customization/Views/OptimizeDevDriveDialog.xaml.cs:94-99 | the same for the subdirectory loop |
| StrictRelocation.MoveTreeStrictFrame | tools/Customization/DevHome.Customization/Views/OptimizeDevDriveDialog.xaml.cs:71-108 | the corrected routine changes nothing outside the source tree, the target tree and the target's ancestors |
| StrictRelocation.LevelFrame | tools/Customization/DevHome.Customization/Views/OptimizeDevDriveDialog.xaml.cs:82-107 | the same once the target exists |
| StrictRelocation.MoveSubdirsStrictFrame | tools/Customization/DevHome.Customization/Views/OptimizeDevDriveDialog.xaml.cs:94-99 | the corrected subdirectory loop changes only what the call for one of its names can reach |
| StrictRelocation.StrictAfterTarget | tools/Customization/DevHome.Customization/Views/OptimizeDevDriveDialog.xaml.cs:75-79 | the same for the corrected routine: once the target exists, it computes the same from the tree with the target created as from the original tree |
| StrictRelocation.MoveTreeStrictOutsideSourceUnchanged | tools/Customization/DevHome.Customization/Views/OptimizeDevDriveDialog.xaml.cs:71-108 | the corrected routine never changes or removes an entry outside its source tree, so an entry already under the target at a clashing name keeps its content |
| StrictRelocation.LevelOutsideSourceUnchanged | tools/Customization/DevHome.Customization/Views/OptimizeDevDriveDialog.xaml.cs:82-107 | the same once the target exists |
| StrictRelocation.MoveSubdirsStrictOutsideUnchanged | tools/Customization/DevHome.Customization/Views/OptimizeDevDriveDialog.xaml.cs:94-99 | the corrected subdirectory loop never changes or removes an entry outside the subtrees it recurses into |
| StrictRelocation.FileLoopKeeps | tools/Customization/DevHome.Customization/Views/OptimizeDevDriveDialog.xaml.cs:86-91 | the file loop keeps every file of the level (moved with its content or in place), touches nothing deeper, and leaves no file behind when it completes |
| StrictRelocation.MoveTreeStrictKeeps | tools/Customization/DevHome.Customization/Views/OptimizeDevDriveDialog.xaml.cs:71-108 | the corrected routine loses no file: each file under the source is afterwards at its place or at the same relative place under the target, with its content; on success nothing is left under the source; the tree stays well formed |
| StrictRelocation.MoveSubdirsStrictKeeps | tools/Customization/DevHome.Customization/Views/OptimizeDevDriveDialog.xaml.cs:94-99 | the corrected subdirectory loop keeps every file under the subdirectories it visits, and on success leaves nothing under them |
| StrictRelocation.RelocatesWhenNothingFails | tools/Customization/DevHome.Customization/Views/OptimizeDevDriveDialog.xaml.cs:71-108 | when nothing fails anywhere in the tree, the routine as written moves every file to the same relative place under the target with its content and removes the source |
| DevDriveDialog.RelocateTo | tools/Customization/DevHome.Customization/Views/OptimizeDevDriveDialog.xaml.cs:126-130 | the filesystem after MoveDirectory(cache, text): whatever the text, no entry outside the cache is changed or removed |
| DevDriveDialog.WriteSetting | tools/Customization/DevHome.Customization/Views/OptimizeDevDriveDialog.xaml.cs:110-120 | the dialog's SetEnvironmentVariable: a rejected name changes nothing, a value that does not delete is stored under the name, a deleting value removes it, other variables are untouched |
| DevDriveDialog.ConfirmAsWritten | tools/Customization/DevHome.Customization/Views/OptimizeDevDriveDialog.xaml.cs:122-133 | the confirm button as written: the variable is set to the text whatever the move did, and nothing outside the cache changes |
| DevDriveDialog.RelocateChecked | tools/Customization/DevHome.Customization/Views/OptimizeDevDriveDialog.xaml.cs:122-133 | the corrected relocation refuses an empty text and a target inside the cache or containing it, changing nothing; a cache that is not there is reported and nothing changes; a success has left nothing under the cache |
| DevDriveDialog.ConfirmChecked | tools/Customization/DevHome.Customization/Views/OptimizeDevDriveDialog.xaml.cs:122-133 | the corrected confirm button: a refused text, or a cache that is not there, changes nothing at all, and the variable changes only after a successful relocation |
| DevDriveDialog.OptimizeDevDriveDialog.constructor | tools/Customization/DevHome.Customization/Views/OptimizeDevDriveDialog.xaml.cs:18-23 | the dialog keeps the cache name, its location and the variable to set |
| DevDriveDialog.OptimizeDevDriveDialog.MoveDirectory | tools/Customization/DevHome.Customization/Views/OptimizeDevDriveDialog.xaml.cs:71-108 | the method leaves the filesystem exactly as Relocation.MoveTree computes it from the old one |
| DevDriveDialog.OptimizeDevDriveDialog.MoveEachFile | tools/Customization/DevHome.Customization/Views/OptimizeDevDriveDialog.xaml.cs:86-91 | the first `foreach` of MoveDirectory as a `while` loop: the filesystem and the reported exception are exactly those Relocation.MoveFiles computes |
| DevDriveDialog.OptimizeDevDriveDialog.SetEnvironmentVariable | tools/Customization/DevHome.Customization/Views/OptimizeDevDriveDialog.xaml.cs:110-120 | the variables become those SetUserVariable computes, or stay as they were when the call throws |
| DevDriveDialog.OptimizeDevDriveDialog.OnDirectoryInputConfirmed | tools/Customization/DevHome.Customization/Views/OptimizeDevDriveDialog.xaml.cs:122-133 | with a null text nothing changes; otherwise the cache is relocated to the typed path and then the variable is set to the text, whatever the move did |
| DevDriveDialog.OptimizeDevDriveDialog.OnDirectoryInputCancelled | tools/Customization/DevHome.Customization/Views/OptimizeDevDriveDialog.xaml.cs:135-137 | neither the filesystem nor the variables change |
| DevDriveDialog.OptimizeDevDriveDialog.MoveDirectoryChecked | tools/Customization/DevHome.Customization/Views/OptimizeDevDriveDialog.xaml.cs:71-108 | the corrected routine, with the same loops, leaves the filesystem and reports the failure exactly as StrictRelocation.MoveTreeStrict computes |
| DevDriveDialog.OptimizeDevDriveDialog.ConfirmRelocation | tools/Customization/DevHome.Customization/Views/OptimizeDevDriveDialog.xaml.cs:122-133 | the corrected confirm button: relocation with MoveDirectoryChecked after refusing an empty text or a target overlapping the cache and checking that the cache exists, and the variable written only if it succeeded |
| DialogProperties.SettingWrittenAfterFailedMove | tools/Customization/DevHome.Customization/Views/OptimizeDevDriveDialog.xaml.cs:122-133 | when the typed path is an existing file, the move fails and changes nothing, yet the variable is set to the text |
| DialogProperties.EmptyTextDeletesSetting | tools/Customization/DevHome.Customization/Views/OptimizeDevDriveDialog.xaml.cs:124-131 | an empty text moves nothing and deletes the variable, leaving the others |
| DialogProperties.CacheLocationAsTargetDeletesCache | tools/Customization/DevHome.Customization/Views/OptimizeDevDriveDialog.xaml.cs:122-133 | as written, typing the cache's own location leaves nothing of the cache and sets the variable to it; as corrected, nothing changes |
| DialogProperties.ConfirmCheckedKeepsCacheAndSetting | tools/Customization/DevHome.Customization/Views/OptimizeDevDriveDialog.xaml.cs:122-133 | the corrected button never loses a cache file; the variable changes only after the whole cache is under the target and the cache folder is gone, and a successful relocation sets it to the text |

## Left out

- The folder picker (`OnBrowseButtonClick`, lines 52-69) is UI and WinRT interop. The text box's text is an input of `OnDirectoryInputConfirmed`, with `None` for null.
- The dependency properties, the localized description (lines 24-25, 28-50, 139-142) and logging (lines 106 and 118) carry no logic. Logging is a no-op.
- `ExistingCacheLocation` is taken as an already parsed path. The callers pass fixed locations, and how a string becomes a path is modelled only for the typed text.
- `CacheToBeMoved` is kept on the class but used by nothing: the code only displays it.
- SystemIO.CreateDir: names are compared exactly, while NTFS compares them regardless of case, so a file whose name differs from an ancestor's only in case is not seen as in the way. A volume is the path's first component, and every entry directly under the model's root is taken to be a volume that exists.
- SystemIO.FileMove: names are compared exactly, while NTFS compares them regardless of case. `File.Move(src\foo.txt, tgt\foo.txt)` with `tgt\Foo.txt` present throws on Windows; in the model it succeeds and both names exist afterwards. A move onto the file's own name is taken to succeed as a no-op, as a rename to the same name does on Windows.
- `Paths.ParsePath` splits on `\` and `/` only. It does not resolve relative paths, `.` or `..`, UNC prefixes or the current drive. It does no case folding and no trimming of trailing dots and spaces, and checks no invalid characters. The corrected routine's overlap test therefore compares components exactly.
- Path length is one separator per component against the extended-length limit. The legacy 260-character limit and per-component limits are not modelled.
- `File.Move` is "move the entry or fail". Rename versus cross-volume copy, access control and locking are reduced to the platform's set of failing sources. A copy that fails half-way is not modelled.
- `Directory.CreateDirectory`, `Directory.GetFiles`, `Directory.GetDirectories` and `Directory.Delete(path, true)` fail only for the structural reasons the model lists: a path over the limit, a file in the way, a missing volume or directory, the root. Access denied, a full disk, a locked or read-only file and other platform failures are modelled for `File.Move` alone, through the platform's set of failing sources.
- SystemIO.DeleteTree: `Directory.Delete` on a volume's root directory (a path of one component such as `D:`) fails on Windows, while the model removes the volume's entries. The cache is never a volume root, and nothing the dialog does reaches that call for one.
- `Directory.Delete(path, true)` either removes the whole tree or throws before removing anything. A delete that fails part-way is not modelled.
- Stack depth is not modelled. With the target inside the source the recursion runs until the path-length limit stops it, thousands of levels deep, and a stack overflow there would end the process, which no `catch` can prevent. Lemmas about that case, `RelocationProperties.TargetInsideSourceLosesEverything` among them, hold for a run whose recursion returns.
- Reparse points, symbolic links and the order of listings beyond "some duplicate-free order" chosen by the platform are not modelled.
- SystemEnvironment.SetUserVariable and DevDriveDialog.WriteSetting: variable names are compared exactly. Windows stores a user variable as a registry value, and registry value names ignore case. So writing `NPM_CONFIG_CACHE` while `npm_config_cache` exists replaces that variable on Windows. The model keeps both, and its "other variables are untouched" matches Windows only for names that differ from the written one even when case is ignored.
- `Environment.SetEnvironmentVariable` with the user target is modelled as its argument checks and the resulting variable map. The registry write, the settings-change broadcast and the registry size limits are not.
- Concurrency and the async UI context are not modelled: the model assumes exclusive access to the tree.
- `tools/SetupFlow/DevHome.SetupFlow/Models/ConfigurationUnit.cs` is not part of this model. It is a display wrapper over a library type with no logic of its own.

## Findings

| source | as written | input that shows it | evidently intended | confidence | as-written member | corrected member |
|---|---|---|---|---|---|---|
| tools/Customization/DevHome.Customization/Views/OptimizeDevDriveDialog.xaml.cs:98-107 | a nested `MoveDirectory` catches its own failure, so the parent carries on and deletes its source recursively, unmoved files included | `src\d\f` a file, `tgt\d\f` an existing file with other content, every file directly in `src` movable | a nested failure stops every enclosing level before it deletes anything, so no file is lost | not executed | RelocationProperties.NestedCollisionLosesFile | StrictRelocation.MoveTreeStrictKeeps |
| tools/Customization/DevHome.Customization/Views/OptimizeDevDriveDialog.xaml.cs:124-130 | the typed folder is used as the target without comparing it with the cache location | target `src\sub`, an existing directory inside the cache, every file directly in `src` movable, and the nested calls returning rather than overflowing the stack | a target inside the cache, or containing it, is refused before anything moves | not executed | RelocationProperties.TargetInsideSourceLosesEverything | DevDriveDialog.ConfirmChecked |
| tools/Customization/DevHome.Customization/Views/OptimizeDevDriveDialog.xaml.cs:130-131 | the variable is written whatever the move did | the typed path names an existing file, so CreateDirectory throws | the variable is written only once the cache has moved | not executed | DialogProperties.SettingWrittenAfterFailedMove | DialogProperties.ConfirmCheckedKeepsCacheAndSetting |
| tools/Customization/DevHome.Customization/Views/OptimizeDevDriveDialog.xaml.cs:124-130 | the typed folder may be the cache location itself: every file is moved onto its own name and the final recursive delete removes the whole cache | the text is the cache's own location, no file directly in it failing to move | a target equal to the cache is refused | not executed | DialogProperties.CacheLocationAsTargetDeletesCache | DevDriveDialog.ConfirmChecked |
