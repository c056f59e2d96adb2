/** OptimizeDevDriveDialog: the dialog that moves a package cache to a folder
    the user typed or picked, then points the cache's user environment variable
    at that folder. */
module DevDriveDialog {
  import opened Options
  import opened Paths
  import opened SystemIO
  import opened SystemEnvironment
  import opened Relocation
  import opened RelocationProperties
  import opened StrictRelocation

  /** The filesystem after MoveDirectory(src, text): a text that names no path
      makes CreateDirectory throw, which MoveDirectory catches. */
  function RelocateTo(fs: Fs, src: Path, text: string, platform: Platform): (r: Fs)
    ensures forall q :: q in fs && !IsPrefix(src, q) ==> q in r && r[q] == fs[q]
  {
    match ParsePath(text)
    case None => fs
    case Some(tgt) =>
      OutsideSourceUnchanged(fs, src, tgt, platform);
      MoveTree(fs, src, tgt, platform).fs
  }

  /** The user variables after the dialog's SetEnvironmentVariable, which
      swallows the exception of a rejected name. */
  function WriteSetting(vars: map<string, string>, name: string, value: string): (r: map<string, string>)
    ensures !ValidName(name) ==> r == vars
    ensures ValidName(name) && !DeletesVariable(value) ==> name in r && r[name] == value
    ensures ValidName(name) && DeletesVariable(value) ==> name !in r
    ensures forall k :: k != name ==> (k in r <==> k in vars) && (k in vars ==> r[k] == vars[k])
  {
    match SetUserVariable(vars, name, value)
    case Some(updated) => updated
    case None => vars
  }

  /** What the dialog acts on: the filesystem and the user's variables. */
  datatype DialogState = DialogState(fs: Fs, vars: map<string, string>)

  /** OnDirectoryInputConfirmed as written, for a text that is not null. */
  function ConfirmAsWritten(s: DialogState, src: Path, name: string, text: string, platform: Platform): (r: DialogState)
    ensures ValidName(name) && !DeletesVariable(text) ==> name in r.vars && r.vars[name] == text
    ensures forall q :: q in s.fs && !IsPrefix(src, q) ==> q in r.fs && r.fs[q] == s.fs[q]
  {
    DialogState(RelocateTo(s.fs, src, text, platform), WriteSetting(s.vars, name, text))
  }

  /** The corrected relocation: a text that names no path, a target that lies
      inside the cache or contains it, and a cache that is not there are
      refused before anything is touched; a failure anywhere in the tree is
      reported. */
  function RelocateChecked(fs: Fs, src: Path, text: string, platform: Platform): (r: Run)
    ensures ParsePath(text).None? ==> r == Run(fs, Some(InvalidArgument))
    ensures ParsePath(text).Some? && !Disjoint(src, ParsePath(text).value) ==> r == Run(fs, Some(InvalidArgument))
    ensures !DirExists(fs, src) ==> r.fs == fs && r.caught.Some?
    ensures r.caught.None? ==> forall q :: IsPrefix(src, q) ==> q !in r.fs
  {
    match ParsePath(text)
    case None => Run(fs, Some(InvalidArgument))
    case Some(tgt) =>
      if !Disjoint(src, tgt) then Run(fs, Some(InvalidArgument))
      else if !DirExists(fs, src) then Run(fs, Some(NotFound))
      else MoveTreeStrict(fs, src, tgt, platform)
  }

  /** The corrected confirm button: the variable is written only once the cache
      has been moved. */
  function ConfirmChecked(s: DialogState, src: Path, name: string, text: string, platform: Platform): (r: DialogState)
    ensures ParsePath(text).None? || !Disjoint(src, ParsePath(text).value) ==> r == s
    ensures !DirExists(s.fs, src) ==> r == s
    ensures r.vars != s.vars ==> RelocateChecked(s.fs, src, text, platform).caught.None?
  {
    var run := RelocateChecked(s.fs, src, text, platform);
    DialogState(run.fs, if run.caught.None? then WriteSetting(s.vars, name, text) else s.vars)
  }

  class OptimizeDevDriveDialog {
    const cacheToBeMoved: string
    const existingCacheLocation: Path
    const environmentVariableToBeSet: string
    const fileSystem: FileSystem
    const environment: UserEnvironment

    constructor (cacheToBeMoved: string, existingCacheLocation: Path, environmentVariableToBeSet: string,
                 fileSystem: FileSystem, environment: UserEnvironment)
      ensures this.cacheToBeMoved == cacheToBeMoved
      ensures this.existingCacheLocation == existingCacheLocation
      ensures this.environmentVariableToBeSet == environmentVariableToBeSet
      ensures this.fileSystem == fileSystem && this.environment == environment
    {
      this.cacheToBeMoved := cacheToBeMoved;
      this.existingCacheLocation := existingCacheLocation;
      this.environmentVariableToBeSet := environmentVariableToBeSet;
      this.fileSystem := fileSystem;
      this.environment := environment;
    }

    /** The first foreach of MoveDirectory: File.Move of each listed file to
        the same name under `tgt`, stopping at the first exception. */
    method MoveEachFile(src: Path, tgt: Path, files: seq<string>) returns (caught: Option<IoError>)
      modifies fileSystem
      ensures var moved := MoveFiles(old(fileSystem.entries), src, files, tgt, fileSystem.faults);
              fileSystem.entries == moved.fs && caught == moved.caught
    {
      var i := 0;
      while i < |files|
        invariant 0 <= i <= |files|
        invariant MoveFiles(old(fileSystem.entries), src, files, tgt, fileSystem.faults)
               == var rest := MoveFiles(fileSystem.entries, src, files[i..], tgt, fileSystem.faults);
                  Progress(rest.fs, rest.done + i, rest.caught)
      {
        var name := files[i];
        var moved := fileSystem.Move(src + [name], tgt + [name]);
        if moved.Threw? {
          return Some(moved.error);
        }
        assert files[i..][1..] == files[i + 1..];
        i := i + 1;
      }
      caught := None;
    }

    /** Every `return` below is the catch block: the exception is logged and
        the call returns normally. */
    method MoveDirectory(src: Path, tgt: Path)
      modifies fileSystem
      ensures fileSystem.entries == MoveTree(old(fileSystem.entries), src, tgt, fileSystem.Facts()).fs
      decreases Budget(tgt)
    {
      var present := fileSystem.Exists(tgt);
      if !present {
        var created := fileSystem.CreateDirectory(tgt);
        if created.Threw? {
          return;
        }
      }

      var files := fileSystem.GetFiles(src);
      if files.Err? {
        return;
      }
      var subdirectories := fileSystem.GetDirectories(src);
      if subdirectories.Err? {
        return;
      }

      var failed := MoveEachFile(src, tgt, files.value);
      if failed.Some? {
        return;
      }

      ghost var afterFiles := fileSystem.entries;
      var j := 0;
      while j < |subdirectories.value|
        invariant 0 <= j <= |subdirectories.value|
        invariant MoveSubdirs(afterFiles, src, subdirectories.value, tgt, fileSystem.Facts())
               == MoveSubdirs(fileSystem.entries, src, subdirectories.value[j..], tgt, fileSystem.Facts())
      {
        var name := subdirectories.value[j];
        PathLengthCombine(tgt, name);
        MoveDirectory(src + [name], tgt + [name]);
        assert subdirectories.value[j..][1..] == subdirectories.value[j + 1..];
        j := j + 1;
      }

      var deleted := fileSystem.Delete(src);
    }

    /** Environment.SetEnvironmentVariable inside a try/catch that logs. */
    method SetEnvironmentVariable(variableName: string, value: string)
      modifies environment
      ensures environment.variables == WriteSetting(old(environment.variables), variableName, value)
    {
      var ok := environment.SetEnvironmentVariable(variableName, value);
    }

    /** The dialog's primary button: `directoryPath` is the text box's text
        (None stands for null). The move runs first, then the variable is
        written, whatever the move did. */
    method OnDirectoryInputConfirmed(directoryPath: Option<string>)
      modifies fileSystem, environment
      ensures directoryPath.None? ==> fileSystem.entries == old(fileSystem.entries)
      ensures directoryPath.None? ==> environment.variables == old(environment.variables)
      ensures directoryPath.Some? ==>
        fileSystem.entries == RelocateTo(old(fileSystem.entries), existingCacheLocation, directoryPath.value, fileSystem.Facts())
      ensures directoryPath.Some? ==>
        environment.variables == WriteSetting(old(environment.variables), environmentVariableToBeSet, directoryPath.value)
    {
      if directoryPath.Some? {
        var target := ParsePath(directoryPath.value);
        if target.Some? {
          MoveDirectory(existingCacheLocation, target.value);
        }
        SetEnvironmentVariable(environmentVariableToBeSet, directoryPath.value);
      }
    }

    /** MoveDirectory with the failures of the nested calls passed up, so that
        no level deletes a source it did not empty. */
    method MoveDirectoryChecked(src: Path, tgt: Path) returns (caught: Option<IoError>)
      modifies fileSystem
      ensures Run(fileSystem.entries, caught) == MoveTreeStrict(old(fileSystem.entries), src, tgt, fileSystem.Facts())
      decreases Budget(tgt)
    {
      var present := fileSystem.Exists(tgt);
      if !present {
        var created := fileSystem.CreateDirectory(tgt);
        if created.Threw? {
          return Some(created.error);
        }
      }

      var files := fileSystem.GetFiles(src);
      if files.Err? {
        return Some(files.error);
      }
      var subdirectories := fileSystem.GetDirectories(src);
      if subdirectories.Err? {
        return Some(NotFound);  // not reached: GetFiles has just found the directory
      }

      var failed := MoveEachFile(src, tgt, files.value);
      if failed.Some? {
        return failed;
      }

      ghost var afterFiles := fileSystem.entries;
      var j := 0;
      while j < |subdirectories.value|
        invariant 0 <= j <= |subdirectories.value|
        invariant MoveSubdirsStrict(afterFiles, src, subdirectories.value, tgt, fileSystem.Facts())
               == MoveSubdirsStrict(fileSystem.entries, src, subdirectories.value[j..], tgt, fileSystem.Facts())
      {
        var name := subdirectories.value[j];
        PathLengthCombine(tgt, name);
        var failed := MoveDirectoryChecked(src + [name], tgt + [name]);
        if failed.Some? {
          return failed;
        }
        assert subdirectories.value[j..][1..] == subdirectories.value[j + 1..];
        j := j + 1;
      }

      var deleted := fileSystem.Delete(src);
      caught := if deleted.Threw? then Some(deleted.error) else None;
    }

    /** The confirm button as it is evidently meant: the cache is moved with
        MoveDirectoryChecked, and the variable is written only if that
        succeeded. `relocated` says whether it did. */
    method ConfirmRelocation(directoryPath: Option<string>) returns (relocated: bool)
      modifies fileSystem, environment
      ensures directoryPath.None? ==> !relocated
      ensures directoryPath.None? ==> fileSystem.entries == old(fileSystem.entries)
      ensures directoryPath.None? ==> environment.variables == old(environment.variables)
      ensures directoryPath.Some? ==>
        relocated == RelocateChecked(old(fileSystem.entries), existingCacheLocation, directoryPath.value, fileSystem.Facts()).caught.None?
      ensures directoryPath.Some? ==>
        DialogState(fileSystem.entries, environment.variables)
        == ConfirmChecked(DialogState(old(fileSystem.entries), old(environment.variables)),
                          existingCacheLocation, environmentVariableToBeSet, directoryPath.value, fileSystem.Facts())
    {
      relocated := false;
      if directoryPath.Some? {
        var target := ParsePath(directoryPath.value);
        if target.Some? && Disjoint(existingCacheLocation, target.value) {
          var cachePresent := fileSystem.Exists(existingCacheLocation);
          if cachePresent {
            var caught := MoveDirectoryChecked(existingCacheLocation, target.value);
            relocated := caught.None?;
            if relocated {
              SetEnvironmentVariable(environmentVariableToBeSet, directoryPath.value);
            }
          }
        }
      }
    }

    /** The dialog's secondary button does nothing. */
    method OnDirectoryInputCancelled()
      ensures fileSystem.entries == old(fileSystem.entries)
      ensures environment.variables == old(environment.variables)
    {
    }
  }
}
