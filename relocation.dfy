/** MoveDirectory (OptimizeDevDriveDialog.xaml.cs) as a function of the
    filesystem, one step of the C# per step here. Each level runs inside its
    own try/catch: an exception ends that level's work, is logged, and is not
    seen by the caller. */
module Relocation {
  import opened Options
  import opened Paths
  import opened SystemIO

  /** The filesystem after a call, and the exception its catch block logged. */
  datatype Run = Run(fs: Fs, caught: Option<IoError>)

  /** The file loop so far: the filesystem, how many files it moved, and the
      exception that ended it. */
  datatype Progress = Progress(fs: Fs, done: nat, caught: Option<IoError>)

  /** Create the target directory unless Directory.Exists finds it. */
  function EnsureTarget(fs: Fs, tgt: Path): (r: Result<Fs>)
    ensures r.Ok? ==> DirExists(r.value, tgt)
    ensures DirExists(fs, tgt) ==> r == Ok(fs)
    ensures r.Ok? ==> forall q :: !IsPrefix(q, tgt) ==> Agree(fs, r.value, q)
  {
    if DirExists(fs, tgt) then Ok(fs) else CreateDir(fs, tgt)
  }

  /** The file loop: File.Move(src\name, tgt\name) for each name in turn; the
      first exception leaves the loop. */
  function MoveFiles(fs: Fs, src: Path, names: seq<string>, tgt: Path, faults: set<Path>): (r: Progress)
    ensures r.done <= |names|
    ensures r.caught.None? <==> r.done == |names|
    decreases |names|
  {
    if names == [] then
      Progress(fs, 0, None)
    else
      match FileMove(fs, src + [names[0]], tgt + [names[0]], faults)
      case Err(e) => Progress(fs, 0, Some(e))
      case Ok(fs') =>
        var rest := MoveFiles(fs', src, names[1..], tgt, faults);
        Progress(rest.fs, rest.done + 1, rest.caught)
  }

  /** The subdirectory loop: MoveDirectory(src\name, tgt\name) for each name in
      turn; the recursive call swallows its own exceptions, so the loop always
      runs to the end. */
  function MoveSubdirs(fs: Fs, src: Path, names: seq<string>, tgt: Path, platform: Platform): Fs
    requires PathLength(tgt) <= MaxPath
    decreases Budget(tgt), 0, |names|
  {
    if names == [] then
      fs
    else
      PathLengthCombine(tgt, names[0]);
      MoveSubdirs(MoveTree(fs, src + [names[0]], tgt + [names[0]], platform).fs, src, names[1..], tgt, platform)
  }

  /** MoveDirectory(src, tgt): create the target, list the source, move its
      files, recurse into its subdirectories, delete it recursively; the first
      exception at this level stops the rest of this level. */
  function MoveTree(fs: Fs, src: Path, tgt: Path, platform: Platform): (r: Run)
    ensures r.caught.None? ==> src != [] && src !in r.fs
    decreases Budget(tgt), 1
  {
    match EnsureTarget(fs, tgt)
    case Err(e) => Run(fs, Some(e))
    case Ok(fs1) =>
      match ListNames(fs1, src, true, platform.order)
      case Err(e) => Run(fs1, Some(e))
      case Ok(files) =>
        match ListNames(fs1, src, false, platform.order)
        case Err(e) => Run(fs1, Some(e))
        case Ok(subdirectories) =>
          var moved := MoveFiles(fs1, src, files, tgt, platform.faults);
          if moved.caught.Some? then
            Run(moved.fs, moved.caught)
          else
            var visited := MoveSubdirs(moved.fs, src, subdirectories, tgt, platform);
            match DeleteTree(visited, src)
            case Err(e) => Run(visited, Some(e))
            case Ok(deleted) => Run(deleted, None)
  }
}
