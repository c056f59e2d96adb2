/** The relocation as MoveDirectory evidently means it: a failure anywhere in a
    subtree stops the work on every enclosing level, so no level deletes a
    source directory that still holds something. The model's corrected dialog
    uses this relocation. */
module StrictRelocation {
  import opened Options
  import opened Paths
  import opened SystemIO
  import opened Relocation
  import opened RelocationProperties

  /** The subdirectory loop, stopping at the first subdirectory that was not
      moved completely and reporting its failure. */
  function MoveSubdirsStrict(fs: Fs, src: Path, names: seq<string>, tgt: Path, platform: Platform): Run
    requires PathLength(tgt) <= MaxPath
    decreases Budget(tgt), 0, |names|
  {
    if names == [] then
      Run(fs, None)
    else
      PathLengthCombine(tgt, names[0]);
      var first := MoveTreeStrict(fs, src + [names[0]], tgt + [names[0]], platform);
      if first.caught.Some? then first else MoveSubdirsStrict(first.fs, src, names[1..], tgt, platform)
  }

  /** MoveDirectory with the failures of the nested calls passed up: the source
      is deleted only once every file under it has been moved. */
  function MoveTreeStrict(fs: Fs, src: Path, tgt: Path, platform: Platform): (r: Run)
    ensures r.caught.None? ==> forall q :: IsPrefix(src, q) ==> q !in r.fs
    decreases Budget(tgt), 1
  {
    match EnsureTarget(fs, tgt)
    case Err(e) => Run(fs, Some(e))
    case Ok(fs1) =>
      match ListNames(fs1, src, true, platform.order)
      case Err(e) => Run(fs1, Some(e))
      case Ok(files) =>
        match ListNames(fs1, src, false, platform.order)
        case Err(e) => Run(fs1, Some(e))
        case Ok(subdirectories) =>
          var moved := MoveFiles(fs1, src, files, tgt, platform.faults);
          if moved.caught.Some? then
            Run(moved.fs, moved.caught)
          else
            var visited := MoveSubdirsStrict(moved.fs, src, subdirectories, tgt, platform);
            if visited.caught.Some? then
              visited
            else
              match DeleteTree(visited.fs, src)
              case Err(e) => Run(visited.fs, Some(e))
              case Ok(deleted) => Run(deleted, None)
  }

  /** Every file under `src` in `before` is, in `after`, still where it was or
      at the same place relative to `tgt`, with its content. */
  ghost predicate KeepsEveryFile(before: Fs, after: Fs, src: Path, tgt: Path) {
    forall rel :: IsFile(before, src + rel) ==> KeptAt(before, after, src + rel, tgt + rel)
  }

  /** When nothing fails, the corrected relocation and the one as written
      compute the same thing. */
  lemma {:induction false} StrictAgreesWhenNothingFails(fs: Fs, src: Path, tgt: Path, platform: Platform)
    ensures MoveTreeStrict(fs, src, tgt, platform).caught.None? ==>
      MoveTree(fs, src, tgt, platform) == MoveTreeStrict(fs, src, tgt, platform)
    decreases Budget(tgt), 1
  {
    match EnsureTarget(fs, tgt)
    case Err(_) =>
    case Ok(fs1) =>
      match ListNames(fs1, src, true, platform.order)
      case Err(_) =>
      case Ok(files) =>
        match ListNames(fs1, src, false, platform.order)
        case Err(_) =>
        case Ok(subdirectories) =>
          var moved := MoveFiles(fs1, src, files, tgt, platform.faults);
          if moved.caught.None? {
            SubdirsStrictAgreesWhenNothingFails(moved.fs, src, subdirectories, tgt, platform);
          }
  }

  lemma {:induction false} SubdirsStrictAgreesWhenNothingFails(fs: Fs, src: Path, names: seq<string>, tgt: Path, platform: Platform)
    requires PathLength(tgt) <= MaxPath
    ensures MoveSubdirsStrict(fs, src, names, tgt, platform).caught.None? ==>
      MoveSubdirs(fs, src, names, tgt, platform) == MoveSubdirsStrict(fs, src, names, tgt, platform).fs
    decreases Budget(tgt), 0, |names|
  {
    if names != [] {
      PathLengthCombine(tgt, names[0]);
      var first := MoveTreeStrict(fs, src + [names[0]], tgt + [names[0]], platform);
      StrictAgreesWhenNothingFails(fs, src + [names[0]], tgt + [names[0]], platform);
      if first.caught.None? {
        SubdirsStrictAgreesWhenNothingFails(first.fs, src, names[1..], tgt, platform);
      }
    }
  }

  /** The corrected relocation changes nothing outside the source tree, the
      target tree and the target's ancestors. */
  lemma {:induction false} MoveTreeStrictFrame(fs: Fs, src: Path, tgt: Path, platform: Platform)
    ensures forall q :: !Reaches(src, tgt, q) ==> Agree(fs, MoveTreeStrict(fs, src, tgt, platform).fs, q)
    decreases Budget(tgt), 2, 0
  {
    var ensured := EnsureTarget(fs, tgt);
    if ensured.Ok? {
      StrictAfterTarget(fs, src, tgt, platform);
      LevelFrame(ensured.value, src, tgt, platform);
    }
  }

  /** MoveTreeStrictFrame once the target exists. */
  lemma {:induction false} LevelFrame(fs1: Fs, src: Path, tgt: Path, platform: Platform)
    requires DirExists(fs1, tgt)
    ensures forall q :: !Reaches(src, tgt, q) ==> Agree(fs1, MoveTreeStrict(fs1, src, tgt, platform).fs, q)
    decreases Budget(tgt), 1, 0
  {
    match ListNames(fs1, src, true, platform.order)
    case Err(_) =>
    case Ok(files) =>
      match ListNames(fs1, src, false, platform.order)
      case Err(_) =>
      case Ok(subdirectories) =>
        var moved := MoveFiles(fs1, src, files, tgt, platform.faults);
        MoveFilesStaysInside(fs1, src, files, tgt, platform.faults);
        if moved.caught.None? {
          var visited := MoveSubdirsStrict(moved.fs, src, subdirectories, tgt, platform);
          MoveSubdirsStrictFrame(moved.fs, src, subdirectories, tgt, platform);
          forall q | !Reaches(src, tgt, q) ensures Agree(fs1, visited.fs, q) {
            forall n | n in subdirectories ensures !Reaches(src + [n], tgt + [n], q) {
              if Reaches(src + [n], tgt + [n], q) {
                ReachesNarrows(src, tgt, n, q);
              }
            }
            assert Agree(fs1, moved.fs, q) && Agree(moved.fs, visited.fs, q);
          }
          if visited.caught.None? {
            match DeleteTree(visited.fs, src)
            case Err(_) =>
            case Ok(deleted) =>
              forall q | !Reaches(src, tgt, q) ensures Agree(fs1, deleted, q) {
                assert Agree(visited.fs, deleted, q);
              }
          }
        }
  }

  lemma {:induction false} MoveSubdirsStrictFrame(fs: Fs, src: Path, names: seq<string>, tgt: Path, platform: Platform)
    requires PathLength(tgt) <= MaxPath
    ensures forall q :: !ReachedBySubdirs(src, tgt, names, q) ==> Agree(fs, MoveSubdirsStrict(fs, src, names, tgt, platform).fs, q)
    decreases Budget(tgt), 0, |names|
  {
    if names != [] {
      var n := names[0];
      PathLengthCombine(tgt, n);
      var first := MoveTreeStrict(fs, src + [n], tgt + [n], platform);
      MoveTreeStrictFrame(fs, src + [n], tgt + [n], platform);
      if first.caught.None? {
        MoveSubdirsStrictFrame(first.fs, src, names[1..], tgt, platform);
      }
      forall q | !ReachedBySubdirs(src, tgt, names, q)
        ensures !Reaches(src + [n], tgt + [n], q) && !ReachedBySubdirs(src, tgt, names[1..], q)
      {
        assert n in names;
        forall m | m in names[1..] ensures !Reaches(src + [m], tgt + [m], q) {
          assert m in names;
        }
      }
    }
  }

  /** The corrected routine never changes or removes an entry outside the
      source tree either: an entry already at a clashing name under the target
      keeps its content. */
  lemma {:induction false} MoveTreeStrictOutsideSourceUnchanged(fs: Fs, src: Path, tgt: Path, platform: Platform)
    ensures var r := MoveTreeStrict(fs, src, tgt, platform);
      forall q :: q in fs && !IsPrefix(src, q) ==> q in r.fs && r.fs[q] == fs[q]
    decreases Budget(tgt), 2, 0
  {
    var ensured := EnsureTarget(fs, tgt);
    if ensured.Ok? {
      var fs1 := ensured.value;
      StrictAfterTarget(fs, src, tgt, platform);
      LevelOutsideSourceUnchanged(fs1, src, tgt, platform);
      forall q | q in fs ensures q in fs1 && fs1[q] == fs[q] {
        if IsPrefix(q, tgt) && !DirExists(fs, tgt) {
          assert !IsFile(fs, q);
        }
      }
    }
  }

  /** MoveTreeStrictOutsideSourceUnchanged once the target exists. */
  lemma {:induction false} LevelOutsideSourceUnchanged(fs1: Fs, src: Path, tgt: Path, platform: Platform)
    requires DirExists(fs1, tgt)
    ensures var r := MoveTreeStrict(fs1, src, tgt, platform);
      forall q :: q in fs1 && !IsPrefix(src, q) ==> q in r.fs && r.fs[q] == fs1[q]
    decreases Budget(tgt), 1, 0
  {
    match ListNames(fs1, src, true, platform.order)
    case Err(_) =>
    case Ok(files) =>
      match ListNames(fs1, src, false, platform.order)
      case Err(_) =>
      case Ok(subdirectories) =>
        var moved := MoveFiles(fs1, src, files, tgt, platform.faults);
        MoveFilesOnlyRemovesSources(fs1, src, files, tgt, platform.faults);
        if moved.caught.None? {
          var visited := MoveSubdirsStrict(moved.fs, src, subdirectories, tgt, platform);
          MoveSubdirsStrictOutsideUnchanged(moved.fs, src, subdirectories, tgt, platform);
          OutsideIsOutsideSubdirs(src, subdirectories);
          if visited.caught.None? {
            match DeleteTree(visited.fs, src)
            case Err(_) =>
            case Ok(deleted) =>
              forall q | q in fs1 && !IsPrefix(src, q) ensures q in deleted && deleted[q] == fs1[q] {
                assert Agree(visited.fs, deleted, q);
              }
          }
        }
  }

  lemma {:induction false} MoveSubdirsStrictOutsideUnchanged(fs: Fs, src: Path, names: seq<string>, tgt: Path, platform: Platform)
    requires PathLength(tgt) <= MaxPath
    ensures var r := MoveSubdirsStrict(fs, src, names, tgt, platform);
      forall q :: q in fs && !InsideSubdirs(src, names, q) ==> q in r.fs && r.fs[q] == fs[q]
    decreases Budget(tgt), 0, |names|
  {
    if names != [] {
      var n := names[0];
      PathLengthCombine(tgt, n);
      var first := MoveTreeStrict(fs, src + [n], tgt + [n], platform);
      MoveTreeStrictOutsideSourceUnchanged(fs, src + [n], tgt + [n], platform);
      if first.caught.None? {
        MoveSubdirsStrictOutsideUnchanged(first.fs, src, names[1..], tgt, platform);
      }
      forall q | !InsideSubdirs(src, names, q)
        ensures !IsPrefix(src + [n], q) && !InsideSubdirs(src, names[1..], q)
      {
        assert n in names;
        forall m | m in names[1..] ensures !IsPrefix(src + [m], q) {
          assert m in names;
        }
      }
    }
  }

  /** The file loop keeps every file of the level: each one is moved with its
      content or left in place; entries deeper down and the source directory
      itself are untouched; when the loop completes, no file is left behind. */
  lemma FileLoopKeeps(fs: Fs, src: Path, files: seq<string>, tgt: Path, faults: set<Path>)
    requires Disjoint(src, tgt) && Distinct(files)
    requires forall m :: IsFile(fs, src + [m]) ==> m in files
    ensures var moved := MoveFiles(fs, src, files, tgt, faults);
      && (forall m :: IsFile(fs, src + [m]) ==> KeptAt(fs, moved.fs, src + [m], tgt + [m]))
      && (forall q :: IsPrefix(src, q) && |q| != |src| + 1 ==> Agree(fs, moved.fs, q))
      && (moved.caught.None? ==> forall m :: IsFile(fs, src + [m]) ==> src + [m] !in moved.fs)
      && (forall rel :: IsFile(fs, src + rel) ==> KeptAt(fs, moved.fs, src + rel, tgt + rel))
  {
    var moved := MoveFiles(fs, src, files, tgt, faults);
    MoveFilesEffect(fs, src, files, tgt, faults);
    forall q | IsPrefix(src, q) && |q| != |src| + 1 ensures Agree(fs, moved.fs, q) {
      if q != [] && |q| > |src| + 1 {
        assert Parent(q)[..|src|] == q[..|src|];
        assert IsPrefix(src, Parent(q));
      }
    }
    forall m | IsFile(fs, src + [m]) ensures KeptAt(fs, moved.fs, src + [m], tgt + [m]) {
      CombineParts(src, m);
      if m in files[..moved.done] {
        var i :| 0 <= i < moved.done && files[..moved.done][i] == m;
        assert files[i] == m;
      } else {
        assert !Relocated(src + [m], src, tgt, files[..moved.done]);
      }
    }
    forall rel | IsFile(fs, src + rel) ensures KeptAt(fs, moved.fs, src + rel, tgt + rel) {
      PrefixOfAppend(src, rel);
      assert |rel| == 1 ==> rel == [rel[0]];
    }
    if moved.caught.None? {
      forall m | IsFile(fs, src + [m]) ensures src + [m] !in moved.fs {
        var i :| 0 <= i < |files| && files[i] == m;
      }
    }
  }

  /** The corrected relocation keeps every file under the source: each one is
      afterwards at its old place or at the same place under the target, with
      its content; when it succeeds nothing is left under the source; and the
      tree stays well formed. */
  lemma {:induction false} MoveTreeStrictKeeps(fs: Fs, src: Path, tgt: Path, platform: Platform)
    requires WellFormed(fs) && ValidOrder(platform.order) && Disjoint(src, tgt)
    ensures var r := MoveTreeStrict(fs, src, tgt, platform);
      && WellFormed(r.fs)
      && KeepsEveryFile(fs, r.fs, src, tgt)
      && (r.caught.None? ==> forall q :: IsPrefix(src, q) ==> q !in r.fs)
    decreases Budget(tgt), 2, 0
  {
    var ensured := EnsureTarget(fs, tgt);
    if ensured.Ok? {
      var fs1 := ensured.value;
      if !DirExists(fs, tgt) {
        CreateDirPreservesWellFormed(fs, tgt);
      }
      StrictAfterTarget(fs, src, tgt, platform);
      var r := MoveTreeStrict(fs1, src, tgt, platform);
      if DirExists(fs1, src) {
        LevelKeeps(fs1, src, tgt, platform);
      } else {
        assert r == Run(fs1, Some(NotFound));
      }
      forall rel | IsFile(fs, src + rel) ensures KeptAt(fs, r.fs, src + rel, tgt + rel) {
        PrefixOfAppend(src, rel);
        DisjointDescendants(src, tgt, src + rel, tgt);
        assert Agree(fs, fs1, src + rel);
      }
    }
  }

  /** Once the target exists, the corrected relocation starts over from the
      filesystem it was created in. */
  lemma StrictAfterTarget(fs: Fs, src: Path, tgt: Path, platform: Platform)
    requires EnsureTarget(fs, tgt).Ok?
    ensures MoveTreeStrict(fs, src, tgt, platform) == MoveTreeStrict(EnsureTarget(fs, tgt).value, src, tgt, platform)
  {
    var fs1 := EnsureTarget(fs, tgt).value;
    assert EnsureTarget(fs1, tgt) == Ok(fs1);
  }

  /** MoveTreeStrictKeeps once the target exists. */
  lemma {:induction false} LevelKeeps(fs1: Fs, src: Path, tgt: Path, platform: Platform)
    requires WellFormed(fs1) && ValidOrder(platform.order) && Disjoint(src, tgt)
    requires DirExists(fs1, tgt) && DirExists(fs1, src)
    ensures var r := MoveTreeStrict(fs1, src, tgt, platform);
      && WellFormed(r.fs)
      && KeepsEveryFile(fs1, r.fs, src, tgt)
      && (r.caught.None? ==> forall q :: IsPrefix(src, q) ==> q !in r.fs)
    decreases Budget(tgt), 1, 0
  {
    var files := ListNames(fs1, src, true, platform.order).value;
    var subdirectories := ListNames(fs1, src, false, platform.order).value;
    assert Enumerates(files, ChildNames(fs1, src, true));
    var moved := MoveFiles(fs1, src, files, tgt, platform.faults);
    FileLoopKeeps(fs1, src, files, tgt, platform.faults);
    MoveFilesPreservesWellFormed(fs1, src, files, tgt, platform.faults);
    if moved.caught.None? {
      SubdirectoryLoopKeeps(fs1, moved.fs, src, tgt, subdirectories, platform);
      var visited := MoveSubdirsStrict(moved.fs, src, subdirectories, tgt, platform);
      if visited.caught.None? {
        var deleted := DeleteTree(visited.fs, src).value;
        DeleteTreePreservesWellFormed(visited.fs, src);
        forall rel | IsFile(fs1, src + rel) ensures tgt + rel in deleted && deleted[tgt + rel] == fs1[src + rel] {
          PrefixOfAppend(tgt, rel);
          DisjointDescendants(src, tgt, src, tgt + rel);
        }
      }
    }
  }

  /** The subdirectory loop of a level whose file loop completed: every file
      of the level is kept, and when the loop completes too, the source
      directory is still there and every file is under the target. */
  lemma {:induction false} SubdirectoryLoopKeeps(fs1: Fs, fs2: Fs, src: Path, tgt: Path, subdirectories: seq<string>, platform: Platform)
    requires WellFormed(fs1) && WellFormed(fs2) && ValidOrder(platform.order) && Disjoint(src, tgt)
    requires DirExists(fs1, tgt) && DirExists(fs1, src)
    requires subdirectories == ListNames(fs1, src, false, platform.order).value
    requires forall rel :: IsFile(fs1, src + rel) ==> KeptAt(fs1, fs2, src + rel, tgt + rel)
    requires forall q :: IsPrefix(src, q) && |q| != |src| + 1 ==> Agree(fs1, fs2, q)
    requires forall m :: IsFile(fs1, src + [m]) ==> src + [m] !in fs2
    ensures var visited := MoveSubdirsStrict(fs2, src, subdirectories, tgt, platform);
      && WellFormed(visited.fs)
      && (forall rel :: IsFile(fs1, src + rel) ==> KeptAt(fs1, visited.fs, src + rel, tgt + rel))
      && (visited.caught.None? ==>
            && DirExists(visited.fs, src)
            && forall rel :: IsFile(fs1, src + rel) ==> tgt + rel in visited.fs && visited.fs[tgt + rel] == fs1[src + rel])
    decreases Budget(tgt), 0, |subdirectories| + 1
  {
    assert Enumerates(subdirectories, ChildNames(fs1, src, false));
    var visited := MoveSubdirsStrict(fs2, src, subdirectories, tgt, platform);
    MoveSubdirsStrictKeeps(fs2, src, subdirectories, tgt, platform);
    MoveSubdirsStrictFrame(fs2, src, subdirectories, tgt, platform);
    forall rel | IsFile(fs1, src + rel) ensures KeptAt(fs1, visited.fs, src + rel, tgt + rel) {
      FileKeptAcrossSubdirectories(fs1, fs2, visited.fs, src, tgt, subdirectories, rel);
    }
    if visited.caught.None? {
      assert !ReachedBySubdirs(src, tgt, subdirectories, src) by {
        forall d | d in subdirectories ensures !Reaches(src + [d], tgt + [d], src) {
          SourceUntouchedBySubdirectory(src, tgt, d);
        }
      }
      assert Agree(fs1, fs2, src);
      forall rel | IsFile(fs1, src + rel) ensures tgt + rel in visited.fs && visited.fs[tgt + rel] == fs1[src + rel] {
        FileLeftNothingBehind(fs1, fs2, visited.fs, src, tgt, subdirectories, rel);
      }
    }
  }

  lemma {:induction false} MoveSubdirsStrictKeeps(fs: Fs, src: Path, names: seq<string>, tgt: Path, platform: Platform)
    requires PathLength(tgt) <= MaxPath && WellFormed(fs) && ValidOrder(platform.order)
    requires Disjoint(src, tgt) && Distinct(names)
    ensures var r := MoveSubdirsStrict(fs, src, names, tgt, platform);
      && WellFormed(r.fs)
      && (forall rel :: IsFile(fs, src + rel) && rel != [] && rel[0] in names ==> KeptAt(fs, r.fs, src + rel, tgt + rel))
      && (r.caught.None? ==> forall d, q :: d in names && IsPrefix(src + [d], q) ==> q !in r.fs)
    decreases Budget(tgt), 0, |names|
  {
    if names == [] {
      return;
    }
    var n := names[0];
    var rest := names[1..];
    assert names == [n] + rest;
    assert Distinct(rest);
    assert n !in rest by {
      forall k | 0 <= k < |rest| ensures rest[k] != n {
        assert rest[k] == names[k + 1];
      }
    }
    PathLengthCombine(tgt, n);
    var first := MoveTreeStrict(fs, src + [n], tgt + [n], platform);
    OneSubdirectory(fs, src, tgt, n, platform);
    if first.caught.None? {
      var r := MoveSubdirsStrict(first.fs, src, rest, tgt, platform);
      MoveSubdirsStrictKeeps(first.fs, src, rest, tgt, platform);
      MoveSubdirsStrictFrame(first.fs, src, rest, tgt, platform);
      ComposeSubdirectories(fs, first.fs, r.fs, src, tgt, n, rest, r.caught.None?);
    } else {
      ComposeSubdirectories(fs, first.fs, first.fs, src, tgt, n, [], false);
    }
  }

  /** What the call for one subdirectory does, in the terms the loop needs. */
  lemma {:induction false} OneSubdirectory(fs: Fs, src: Path, tgt: Path, n: string, platform: Platform)
    requires PathLength(tgt) <= MaxPath && WellFormed(fs) && ValidOrder(platform.order) && Disjoint(src, tgt)
    ensures var first := MoveTreeStrict(fs, src + [n], tgt + [n], platform);
      && WellFormed(first.fs)
      && (forall rel :: IsFile(fs, src + rel) && rel != [] && rel[0] == n ==> KeptAt(fs, first.fs, src + rel, tgt + rel))
      && (forall rel :: rel != [] && rel[0] != n ==> Agree(fs, first.fs, src + rel) && Agree(fs, first.fs, tgt + rel))
      && (first.caught.None? ==> forall q :: IsPrefix(src + [n], q) ==> q !in first.fs)
    decreases Budget(tgt), 0, 0
  {
    PathLengthCombine(tgt, n);
    ChildrenStayDisjoint(src, tgt, n);
    var first := MoveTreeStrict(fs, src + [n], tgt + [n], platform);
    MoveTreeStrictKeeps(fs, src + [n], tgt + [n], platform);
    MoveTreeStrictFrame(fs, src + [n], tgt + [n], platform);
    forall rel | IsFile(fs, src + rel) && rel != [] && rel[0] == n ensures KeptAt(fs, first.fs, src + rel, tgt + rel) {
      assert rel == [n] + rel[1..];
      CombineAssociates(src, n, rel[1..]);
      CombineAssociates(tgt, n, rel[1..]);
    }
    forall rel | rel != [] && rel[0] != n ensures Agree(fs, first.fs, src + rel) && Agree(fs, first.fs, tgt + rel) {
      OtherSubdirectoryUntouched(src, tgt, n, rel);
    }
  }

  /** The first subdirectory's call followed by the loop over the rest. */
  lemma ComposeSubdirectories(fs: Fs, mid: Fs, fin: Fs, src: Path, tgt: Path, n: string, rest: seq<string>, completed: bool)
    requires Disjoint(src, tgt) && n !in rest
    requires forall rel :: IsFile(fs, src + rel) && rel != [] && rel[0] == n ==> KeptAt(fs, mid, src + rel, tgt + rel)
    requires forall rel :: rel != [] && rel[0] != n ==> Agree(fs, mid, src + rel) && Agree(fs, mid, tgt + rel)
    requires forall rel :: IsFile(mid, src + rel) && rel != [] && rel[0] in rest ==> KeptAt(mid, fin, src + rel, tgt + rel)
    requires forall q :: !ReachedBySubdirs(src, tgt, rest, q) ==> Agree(mid, fin, q)
    requires completed ==> forall q :: IsPrefix(src + [n], q) ==> q !in mid
    requires completed ==> forall d, q :: d in rest && IsPrefix(src + [d], q) ==> q !in fin
    ensures forall rel :: IsFile(fs, src + rel) && rel != [] && rel[0] in [n] + rest ==> KeptAt(fs, fin, src + rel, tgt + rel)
    ensures completed ==> forall d, q :: d in [n] + rest && IsPrefix(src + [d], q) ==> q !in fin
  {
    forall rel | rel != [] && rel[0] == n
      ensures !ReachedBySubdirs(src, tgt, rest, src + rel) && !ReachedBySubdirs(src, tgt, rest, tgt + rel)
    {
      forall d | d in rest ensures !Reaches(src + [d], tgt + [d], src + rel) && !Reaches(src + [d], tgt + [d], tgt + rel) {
        OtherSubdirectoryUntouched(src, tgt, d, rel);
      }
    }
    if completed {
      forall q | IsPrefix(src + [n], q) ensures q !in fin {
        PrefixCombine(src, n, q);
        var rel := q[|src|..];
        assert q == src + rel;
        assert rel != [] && rel[0] == n;
      }
    }
  }

  /** A file under a level, kept by the file loop or by the subdirectory loop,
      is kept by the two together. */
  lemma FileKeptAcrossSubdirectories(fs1: Fs, fs2: Fs, fs3: Fs, src: Path, tgt: Path, subdirectories: seq<string>, rel: Path)
    requires Disjoint(src, tgt) && src in fs1 && fs1[src].Dir? && IsFile(fs1, src + rel)
    requires forall d :: d in subdirectories <==> src + [d] in fs1 && fs1[src + [d]].Dir?
    requires KeptAt(fs1, fs2, src + rel, tgt + rel)
    requires forall q :: IsPrefix(src, q) && |q| != |src| + 1 ==> Agree(fs1, fs2, q)
    requires forall q :: !ReachedBySubdirs(src, tgt, subdirectories, q) ==> Agree(fs2, fs3, q)
    requires forall r :: IsFile(fs2, src + r) && r != [] && r[0] in subdirectories ==> KeptAt(fs2, fs3, src + r, tgt + r)
    ensures KeptAt(fs1, fs3, src + rel, tgt + rel)
  {
    assert rel != [] by {
      assert src + [] == src;
    }
    var m := rel[0];
    PrefixOfAppend(src, rel);
    if m in subdirectories {
      assert |rel| == 1 ==> rel == [m];
      assert Agree(fs1, fs2, src + rel);
    } else {
      forall d | d in subdirectories ensures !Reaches(src + [d], tgt + [d], src + rel) && !Reaches(src + [d], tgt + [d], tgt + rel) {
        OtherSubdirectoryUntouched(src, tgt, d, rel);
      }
      assert !ReachedBySubdirs(src, tgt, subdirectories, src + rel);
      assert !ReachedBySubdirs(src, tgt, subdirectories, tgt + rel);
    }
  }

  /** After a level that completed, no file under it is left at its old place. */
  lemma FileLeftNothingBehind(fs1: Fs, fs2: Fs, fs3: Fs, src: Path, tgt: Path, subdirectories: seq<string>, rel: Path)
    requires WellFormed(fs1) && Disjoint(src, tgt) && src in fs1 && fs1[src].Dir? && IsFile(fs1, src + rel)
    requires forall d :: d in subdirectories <==> src + [d] in fs1 && fs1[src + [d]].Dir?
    requires forall m :: IsFile(fs1, src + [m]) ==> src + [m] !in fs2
    requires forall q :: !ReachedBySubdirs(src, tgt, subdirectories, q) ==> Agree(fs2, fs3, q)
    requires forall d, q :: d in subdirectories && IsPrefix(src + [d], q) ==> q !in fs3
    requires KeptAt(fs1, fs3, src + rel, tgt + rel)
    ensures tgt + rel in fs3 && fs3[tgt + rel] == fs1[src + rel]
  {
    assert rel != [] by {
      assert src + [] == src;
    }
    var m := rel[0];
    assert rel == [m] + rel[1..];
    CombineAssociates(src, m, rel[1..]);
    CombineParts(src, m);
    PrefixOfAppend(src + [m], rel[1..]);
    if m !in subdirectories {
      if |rel| >= 2 {
        AncestorsAreDirectories(fs1, src + [m], src + rel);
      }
      assert rel == [m];
      forall d | d in subdirectories ensures !Reaches(src + [d], tgt + [d], src + rel) {
        OtherSubdirectoryUntouched(src, tgt, d, rel);
      }
      assert !ReachedBySubdirs(src, tgt, subdirectories, src + rel);
    }
    assert src + rel !in fs3;
  }

  /** The routine as written is right whenever nothing fails anywhere in the
      tree: every file of the source ends at the same place under the target,
      with its content, and the source is gone. */
  lemma RelocatesWhenNothingFails(fs: Fs, src: Path, tgt: Path, platform: Platform)
    requires WellFormed(fs) && ValidOrder(platform.order) && Disjoint(src, tgt)
    requires MoveTreeStrict(fs, src, tgt, platform).caught.None?
    ensures var r := MoveTree(fs, src, tgt, platform);
      && r.caught.None?
      && (forall rel :: IsFile(fs, src + rel) ==> tgt + rel in r.fs && r.fs[tgt + rel] == fs[src + rel])
      && (forall q :: IsPrefix(src, q) ==> q !in r.fs)
  {
    StrictAgreesWhenNothingFails(fs, src, tgt, platform);
    MoveTreeStrictKeeps(fs, src, tgt, platform);
    forall rel | IsFile(fs, src + rel) ensures src + rel !in MoveTree(fs, src, tgt, platform).fs {
      PrefixOfAppend(src, rel);
    }
  }
}
