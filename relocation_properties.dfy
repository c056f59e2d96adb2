/** What MoveDirectory does to the filesystem, as it is written: the file loop,
    what a call can touch, what survives it, and the consequences of catching
    every exception at the level that raised it. */
module RelocationProperties {
  import opened Options
  import opened Paths
  import opened SystemIO
  import opened Relocation

  predicate Distinct(names: seq<string>) {
    forall i, j :: 0 <= i < j < |names| ==> names[i] != names[j]
  }

  /** File.Move(src\n, tgt\n) succeeds in `fs` and puts the file at a new place
      (with the source as target a move is a rename onto the same name instead;
      see MoveFilesOntoThemselves). */
  ghost predicate Movable(fs: Fs, src: Path, tgt: Path, n: string, faults: set<Path>) {
    && IsFile(fs, src + [n])
    && src + [n] !in faults
    && tgt + [n] !in fs
    && PathLength(tgt + [n]) <= MaxPath
    && DirExists(fs, tgt)
  }

  /** `q` is the source or the destination of moving one of `names`. */
  ghost predicate Relocated(q: Path, src: Path, tgt: Path, names: seq<string>) {
    q != [] && (Parent(q) == src || Parent(q) == tgt) && Name(q) in names
  }

  /** The entries a call MoveDirectory(src, tgt) can change: those under the
      source, those under the target, and the target's ancestors. */
  ghost predicate Reaches(src: Path, tgt: Path, q: Path) {
    IsPrefix(src, q) || IsPrefix(tgt, q) || IsPrefix(q, tgt)
  }

  lemma CombineParts(p: Path, n: string)
    ensures p + [n] != [] && Parent(p + [n]) == p && Name(p + [n]) == n
    ensures IsPrefix(p, p + [n])
  {
    assert (p + [n])[..|p|] == p;
  }

  lemma MovableWhereAgreeing(a: Fs, b: Fs, src: Path, tgt: Path, n: string, faults: set<Path>)
    requires Agree(a, b, src + [n]) && Agree(a, b, tgt + [n]) && Agree(a, b, tgt)
    ensures Movable(a, src, tgt, n, faults) <==> Movable(b, src, tgt, n, faults)
  {
  }

  lemma MovableMoves(fs: Fs, src: Path, tgt: Path, n: string, faults: set<Path>)
    requires Movable(fs, src, tgt, n, faults)
    ensures FileMove(fs, src + [n], tgt + [n], faults).Ok?
  {
    CombineParts(tgt, n);
  }

  /** The file loop moves a prefix of the listed files, each one to the same
      name under the target with its content, stops at the first file whose
      move fails, and touches nothing but the files it moved and their targets. */
  lemma {:induction false} MoveFilesEffect(fs: Fs, src: Path, names: seq<string>, tgt: Path, faults: set<Path>)
    requires src != tgt && Distinct(names)
    ensures var r := MoveFiles(fs, src, names, tgt, faults);
      && (forall i :: 0 <= i < r.done ==>
            && Movable(fs, src, tgt, names[i], faults)
            && src + [names[i]] !in r.fs
            && tgt + [names[i]] in r.fs && r.fs[tgt + [names[i]]] == fs[src + [names[i]]])
      && (r.caught.Some? ==> !Movable(fs, src, tgt, names[r.done], faults))
      && (forall q :: !Relocated(q, src, tgt, names[..r.done]) ==> Agree(fs, r.fs, q))
    decreases |names|
  {
    if names == [] {
      return;
    }
    var n := names[0];
    CombineParts(src, n);
    CombineParts(tgt, n);
    match FileMove(fs, src + [n], tgt + [n], faults)
    case Err(e) =>
      if Movable(fs, src, tgt, n, faults) {
        MovableMoves(fs, src, tgt, n, faults);
      }
    case Ok(fs') =>
      var rest := names[1..];
      assert Distinct(rest);
      assert names == [n] + rest;
      MoveFilesEffect(fs', src, rest, tgt, faults);
      var r' := MoveFiles(fs', src, rest, tgt, faults);
      assert MoveFiles(fs, src, names, tgt, faults) == Progress(r'.fs, r'.done + 1, r'.caught);
      MoveFirstFile(fs, fs', src, n, rest, tgt, faults);
      MoveFilesStep(fs, fs', src, n, rest, tgt, faults, r');
      MoveFilesStepFrame(fs, fs', src, n, rest, tgt, faults, r');
  }

  /** One step of the file loop, moving `n` first (into `fs'`) and then the
      rest: the files moved so far. */
  lemma MoveFilesStep(fs: Fs, fs': Fs, src: Path, n: string, rest: seq<string>, tgt: Path, faults: set<Path>, r': Progress)
    requires src != tgt && Distinct([n] + rest)
    requires Movable(fs, src, tgt, n, faults)
    requires src + [n] !in fs' && tgt + [n] in fs' && fs'[tgt + [n]] == fs[src + [n]]
    requires forall m :: m in rest ==> Agree(fs, fs', src + [m]) && Agree(fs, fs', tgt + [m]) && Agree(fs, fs', tgt)
    requires r'.done <= |rest| && (r'.caught.Some? ==> r'.done < |rest|)
    requires forall i :: 0 <= i < r'.done ==>
            && Movable(fs', src, tgt, rest[i], faults)
            && src + [rest[i]] !in r'.fs
            && tgt + [rest[i]] in r'.fs && r'.fs[tgt + [rest[i]]] == fs'[src + [rest[i]]]
    requires r'.caught.Some? ==> !Movable(fs', src, tgt, rest[r'.done], faults)
    requires forall q :: !Relocated(q, src, tgt, rest[..r'.done]) ==> Agree(fs', r'.fs, q)
    ensures var names := [n] + rest;
      var r := Progress(r'.fs, r'.done + 1, r'.caught);
      && (forall i :: 0 <= i < r.done ==>
            && Movable(fs, src, tgt, names[i], faults)
            && src + [names[i]] !in r.fs
            && tgt + [names[i]] in r.fs && r.fs[tgt + [names[i]]] == fs[src + [names[i]]])
      && (r.caught.Some? ==> !Movable(fs, src, tgt, names[r.done], faults))
  {
    var names := [n] + rest;
    var r := Progress(r'.fs, r'.done + 1, r'.caught);
    CombineParts(src, n);
    CombineParts(tgt, n);
    assert forall k :: 0 <= k < |rest| ==> rest[k] == names[k + 1];
    assert n !in rest[..r'.done] by {
      forall k | 0 <= k < r'.done ensures rest[k] != n {
        assert rest[k] == names[k + 1];
      }
    }
    assert !Relocated(src + [n], src, tgt, rest[..r'.done]);
    assert !Relocated(tgt + [n], src, tgt, rest[..r'.done]);
    forall i | 0 <= i < r.done
      ensures Movable(fs, src, tgt, names[i], faults)
      ensures src + [names[i]] !in r.fs
      ensures tgt + [names[i]] in r.fs && r.fs[tgt + [names[i]]] == fs[src + [names[i]]]
    {
      if i > 0 {
        assert names[i] == rest[i - 1] && names[i] in rest;
        MovableWhereAgreeing(fs, fs', src, tgt, names[i], faults);
      }
    }
    if r.caught.Some? {
      assert names[r.done] == rest[r'.done] && names[r.done] in rest;
      MovableWhereAgreeing(fs, fs', src, tgt, names[r.done], faults);
    }
  }

  /** Moving the first file of the loop moves it, and changes nothing the rest
      of the loop looks at. */
  lemma MoveFirstFile(fs: Fs, fs': Fs, src: Path, n: string, rest: seq<string>, tgt: Path, faults: set<Path>)
    requires src != tgt && Distinct([n] + rest)
    requires FileMove(fs, src + [n], tgt + [n], faults) == Ok(fs')
    ensures Movable(fs, src, tgt, n, faults)
    ensures src + [n] !in fs' && tgt + [n] in fs' && fs'[tgt + [n]] == fs[src + [n]]
    ensures forall m :: m in rest ==> Agree(fs, fs', src + [m]) && Agree(fs, fs', tgt + [m]) && Agree(fs, fs', tgt)
  {
    var names := [n] + rest;
    CombineParts(src, n);
    CombineParts(tgt, n);
    assert DirExists(fs, tgt);
    assert tgt != src + [n];
    forall m | m in rest
      ensures Agree(fs, fs', src + [m]) && Agree(fs, fs', tgt + [m]) && Agree(fs, fs', tgt)
    {
      CombineParts(src, m);
      CombineParts(tgt, m);
      var k :| 0 <= k < |rest| && rest[k] == m;
      assert names[k + 1] == m && names[0] == n;
    }
  }

  /** What one step of the file loop leaves alone: everything but the moved
      files and their targets. */
  lemma MoveFilesStepFrame(fs: Fs, fs': Fs, src: Path, n: string, rest: seq<string>, tgt: Path, faults: set<Path>, r': Progress)
    requires FileMove(fs, src + [n], tgt + [n], faults) == Ok(fs')
    requires r'.done <= |rest|
    requires forall q :: !Relocated(q, src, tgt, rest[..r'.done]) ==> Agree(fs', r'.fs, q)
    ensures forall q :: !Relocated(q, src, tgt, ([n] + rest)[..r'.done + 1]) ==> Agree(fs, r'.fs, q)
  {
    CombineParts(src, n);
    CombineParts(tgt, n);
    assert ([n] + rest)[..r'.done + 1] == [n] + rest[..r'.done];
    forall q | !Relocated(q, src, tgt, [n] + rest[..r'.done]) ensures Agree(fs, r'.fs, q) {
      assert q != src + [n] && q != tgt + [n];
      assert !Relocated(q, src, tgt, rest[..r'.done]);
    }
  }

  lemma {:induction false} MoveFilesStaysInside(fs: Fs, src: Path, names: seq<string>, tgt: Path, faults: set<Path>)
    ensures forall q :: !IsPrefix(src, q) && !IsPrefix(tgt, q) ==> Agree(fs, MoveFiles(fs, src, names, tgt, faults).fs, q)
    decreases |names|
  {
    if names != [] {
      CombineParts(src, names[0]);
      CombineParts(tgt, names[0]);
      match FileMove(fs, src + [names[0]], tgt + [names[0]], faults)
      case Err(_) =>
      case Ok(fs') =>
        MoveFilesStaysInside(fs', src, names[1..], tgt, faults);
    }
  }

  lemma ReachesNarrows(src: Path, tgt: Path, n: string, q: Path)
    requires Reaches(src + [n], tgt + [n], q)
    ensures Reaches(src, tgt, q)
  {
    if IsPrefix(src + [n], q) {
      PrefixCombine(src, n, q);
    } else if IsPrefix(tgt + [n], q) {
      PrefixCombine(tgt, n, q);
    } else {
      PrefixOfCombine(q, tgt, n);
      if q == tgt + [n] {
        CombineParts(tgt, n);
      }
    }
  }

  /** MoveDirectory(src, tgt) changes nothing outside the source tree, the
      target tree and the target's ancestors. */
  lemma {:induction false} MoveTreeFrame(fs: Fs, src: Path, tgt: Path, platform: Platform)
    ensures forall q :: !Reaches(src, tgt, q) ==> Agree(fs, MoveTree(fs, src, tgt, platform).fs, q)
    decreases Budget(tgt), 1
  {
    match EnsureTarget(fs, tgt)
    case Err(_) =>
    case Ok(fs1) =>
      match ListNames(fs1, src, true, platform.order)
      case Err(_) =>
      case Ok(files) =>
        match ListNames(fs1, src, false, platform.order)
        case Err(_) =>
        case Ok(subdirectories) =>
          var moved := MoveFiles(fs1, src, files, tgt, platform.faults);
          MoveFilesStaysInside(fs1, src, files, tgt, platform.faults);
          if moved.caught.None? {
            MoveSubdirsFrame(moved.fs, src, subdirectories, tgt, platform);
            forall q | !Reaches(src, tgt, q) ensures !ReachedBySubdirs(src, tgt, subdirectories, q) {
              forall n | n in subdirectories ensures !Reaches(src + [n], tgt + [n], q) {
                if Reaches(src + [n], tgt + [n], q) {
                  ReachesNarrows(src, tgt, n, q);
                }
              }
            }
          }
  }

  /** Some call MoveDirectory(src\n, tgt\n) of the subdirectory loop over
      `names` can change `q`. */
  ghost predicate ReachedBySubdirs(src: Path, tgt: Path, names: seq<string>, q: Path) {
    exists n :: n in names && Reaches(src + [n], tgt + [n], q)
  }

  lemma {:induction false} MoveSubdirsFrame(fs: Fs, src: Path, names: seq<string>, tgt: Path, platform: Platform)
    requires PathLength(tgt) <= MaxPath
    ensures forall q :: !ReachedBySubdirs(src, tgt, names, q) ==> Agree(fs, MoveSubdirs(fs, src, names, tgt, platform), q)
    decreases Budget(tgt), 0, |names|
  {
    if names != [] {
      var n := names[0];
      PathLengthCombine(tgt, n);
      var mid := MoveTree(fs, src + [n], tgt + [n], platform).fs;
      MoveTreeFrame(fs, src + [n], tgt + [n], platform);
      MoveSubdirsFrame(mid, src, names[1..], tgt, platform);
      forall q | !ReachedBySubdirs(src, tgt, names, q)
        ensures !Reaches(src + [n], tgt + [n], q) && !ReachedBySubdirs(src, tgt, names[1..], q)
      {
        assert n in names;
        forall m | m in names[1..] ensures !Reaches(src + [m], tgt + [m], q) {
          assert m in names;
        }
      }
    }
  }

  /** A subdirectory call for one name cannot reach what lies under the source
      or the target for another name. */
  lemma OtherSubdirectoryUntouched(src: Path, tgt: Path, n: string, rel: Path)
    requires Disjoint(src, tgt) && rel != [] && rel[0] != n
    ensures !Reaches(src + [n], tgt + [n], src + rel)
    ensures !Reaches(src + [n], tgt + [n], tgt + rel)
  {
    CombineAssociates(src, rel[0], rel[1..]);
    CombineAssociates(tgt, rel[0], rel[1..]);
    assert rel == [rel[0]] + rel[1..];
    assert (src + rel)[|src|] == rel[0] && (tgt + rel)[|tgt|] == rel[0] && (tgt + [n])[|tgt|] == n;
    if IsPrefix(tgt + [n], src + rel) {
      PrefixCombine(tgt, n, src + rel);
      PrefixesComparable(tgt, src, src + rel);
    }
    if IsPrefix(src + rel, tgt + [n]) {
      PrefixTransitive(src, src + rel, tgt + [n]);
      PrefixOfCombine(src, tgt, n);
      if src == tgt + [n] {
        CombineParts(tgt, n);
      }
    }
    if IsPrefix(src + [n], tgt + rel) {
      PrefixCombine(src, n, tgt + rel);
      PrefixesComparable(src, tgt, tgt + rel);
    }
  }

  lemma {:induction false} MoveFilesPreservesWellFormed(fs: Fs, src: Path, names: seq<string>, tgt: Path, faults: set<Path>)
    requires WellFormed(fs)
    ensures WellFormed(MoveFiles(fs, src, names, tgt, faults).fs)
    decreases |names|
  {
    if names != [] {
      match FileMove(fs, src + [names[0]], tgt + [names[0]], faults)
      case Err(_) =>
      case Ok(fs') =>
        FileMovePreservesWellFormed(fs, src + [names[0]], tgt + [names[0]], faults);
        MoveFilesPreservesWellFormed(fs', src, names[1..], tgt, faults);
    }
  }

  /** MoveDirectory leaves a well-formed tree well-formed, whatever fails. */
  lemma {:induction false} MoveTreePreservesWellFormed(fs: Fs, src: Path, tgt: Path, platform: Platform)
    requires WellFormed(fs)
    ensures WellFormed(MoveTree(fs, src, tgt, platform).fs)
    decreases Budget(tgt), 1
  {
    match EnsureTarget(fs, tgt)
    case Err(_) =>
    case Ok(fs1) =>
      if !DirExists(fs, tgt) {
        CreateDirPreservesWellFormed(fs, tgt);
      }
      match ListNames(fs1, src, true, platform.order)
      case Err(_) =>
      case Ok(files) =>
        match ListNames(fs1, src, false, platform.order)
        case Err(_) =>
        case Ok(subdirectories) =>
          var moved := MoveFiles(fs1, src, files, tgt, platform.faults);
          MoveFilesPreservesWellFormed(fs1, src, files, tgt, platform.faults);
          if moved.caught.None? {
            var visited := MoveSubdirs(moved.fs, src, subdirectories, tgt, platform);
            MoveSubdirsPreservesWellFormed(moved.fs, src, subdirectories, tgt, platform);
            if DeleteTree(visited, src).Ok? {
              DeleteTreePreservesWellFormed(visited, src);
            }
          }
  }

  lemma {:induction false} MoveSubdirsPreservesWellFormed(fs: Fs, src: Path, names: seq<string>, tgt: Path, platform: Platform)
    requires PathLength(tgt) <= MaxPath && WellFormed(fs)
    ensures WellFormed(MoveSubdirs(fs, src, names, tgt, platform))
    decreases Budget(tgt), 0, |names|
  {
    if names != [] {
      PathLengthCombine(tgt, names[0]);
      MoveTreePreservesWellFormed(fs, src + [names[0]], tgt + [names[0]], platform);
      MoveSubdirsPreservesWellFormed(MoveTree(fs, src + [names[0]], tgt + [names[0]], platform).fs, src, names[1..], tgt, platform);
    }
  }

  /** `after` still holds what `before` had at `from`, at `from` or at `to`. */
  ghost predicate KeptAt(before: Fs, after: Fs, from: Path, to: Path) {
    from in before ==>
      (from in after && after[from] == before[from]) || (to in after && after[to] == before[from])
  }

  /** The direct children of two disjoint directories are disjoint from both. */
  lemma ChildrenStayDisjoint(src: Path, tgt: Path, n: string)
    requires Disjoint(src, tgt)
    ensures Disjoint(src + [n], tgt + [n]) && Disjoint(src, tgt + [n]) && Disjoint(src + [n], tgt)
  {
    CombineParts(src, n);
    CombineParts(tgt, n);
    DisjointDescendants(src, tgt, src + [n], tgt + [n]);
    DisjointDescendants(src, tgt, src, tgt + [n]);
    DisjointDescendants(src, tgt, src + [n], tgt);
  }

  /** No call of the subdirectory loop reaches the directory being moved. */
  lemma SourceUntouchedBySubdirectory(src: Path, tgt: Path, n: string)
    requires Disjoint(src, tgt)
    ensures !Reaches(src + [n], tgt + [n], src)
  {
    ChildrenStayDisjoint(src, tgt, n);
    if IsPrefix(tgt + [n], src) {
      PrefixCombine(tgt, n, src);
    }
  }

  /** The Exists/CreateDirectory step only prepares the target: a call behaves
      as it would on the filesystem with the target already in place. This
      carries the lemmas below, which start from an existing target, over to a
      call that has to create it. */
  lemma AfterTarget(fs: Fs, src: Path, tgt: Path, platform: Platform)
    requires EnsureTarget(fs, tgt).Ok?
    ensures MoveTree(fs, src, tgt, platform) == MoveTree(EnsureTarget(fs, tgt).value, src, tgt, platform)
  {
    var fs1 := EnsureTarget(fs, tgt).value;
    assert EnsureTarget(fs1, tgt) == Ok(fs1);
  }

  /** A file of this level that cannot be moved (its name is taken under the
      target, the move fails, ...) ends the level: no subdirectory is visited,
      the source directory is not deleted, that file and whatever holds its name
      under the target are left alone, and every file of the level is either
      still in place or moved with its content. */
  lemma CollisionAbortsLevel(fs: Fs, src: Path, tgt: Path, platform: Platform, n: string)
    requires ValidOrder(platform.order) && Disjoint(src, tgt)
    requires DirExists(fs, src) && DirExists(fs, tgt)
    requires IsFile(fs, src + [n]) && !Movable(fs, src, tgt, n, platform.faults)
    ensures var r := MoveTree(fs, src, tgt, platform);
      && r.caught.Some?
      && DirExists(r.fs, src)
      && Agree(fs, r.fs, src + [n]) && Agree(fs, r.fs, tgt + [n])
      && (forall q :: IsPrefix(src, q) && |q| > |src| + 1 ==> Agree(fs, r.fs, q))
      && (forall d :: src + [d] in fs && fs[src + [d]].Dir? ==> Agree(fs, r.fs, src + [d]) && Agree(fs, r.fs, tgt + [d]))
      && (forall m :: IsFile(fs, src + [m]) ==> KeptAt(fs, r.fs, src + [m], tgt + [m]))
  {
    var files := ListNames(fs, src, true, platform.order).value;
    var moved := MoveFiles(fs, src, files, tgt, platform.faults);
    assert Enumerates(files, ChildNames(fs, src, true));
    MoveFilesEffect(fs, src, files, tgt, platform.faults);
    CombineParts(src, n);
    CombineParts(tgt, n);
    assert n in files;
    var k :| 0 <= k < |files| && files[k] == n;
    assert n !in files[..moved.done];
    assert moved.done < |files|;
    assert IsPrefix(Parent(src), src) && |Parent(src)| < |src|;
    assert !Relocated(src, src, tgt, files[..moved.done]);
    forall q | IsPrefix(src, q) && |q| > |src| + 1 ensures Agree(fs, moved.fs, q) {
      assert Parent(q)[..|src|] == q[..|src|];
      assert IsPrefix(src, Parent(q));
    }
    forall d | src + [d] in fs && fs[src + [d]].Dir?
      ensures Agree(fs, moved.fs, src + [d]) && Agree(fs, moved.fs, tgt + [d])
    {
      CombineParts(src, d);
      CombineParts(tgt, d);
      assert d !in files;
      assert !Relocated(src + [d], src, tgt, files[..moved.done]);
      assert !Relocated(tgt + [d], src, tgt, files[..moved.done]);
    }
    forall m | IsFile(fs, src + [m]) ensures KeptAt(fs, moved.fs, src + [m], tgt + [m]) {
      CombineParts(src, m);
      if m in files[..moved.done] {
        var i :| 0 <= i < moved.done && files[..moved.done][i] == m;
        assert files[i] == m;
      } else {
        assert !Relocated(src + [m], src, tgt, files[..moved.done]);
      }
    }
  }

  /** However the subdirectory calls end (each catches its own exceptions), a
      level whose own files all move goes on to delete its source directory
      recursively, and reports nothing to its caller. */
  lemma LevelCompletesDespiteSubdirectoryFailures(fs: Fs, src: Path, tgt: Path, platform: Platform)
    requires ValidOrder(platform.order) && Disjoint(src, tgt)
    requires DirExists(fs, src) && DirExists(fs, tgt)
    requires forall m :: IsFile(fs, src + [m]) ==> Movable(fs, src, tgt, m, platform.faults)
    ensures var r := MoveTree(fs, src, tgt, platform);
      && r.caught.None?
      && (forall q :: IsPrefix(src, q) ==> q !in r.fs)
      && (forall m :: IsFile(fs, src + [m]) ==> tgt + [m] in r.fs && r.fs[tgt + [m]] == fs[src + [m]])
  {
    var files := ListNames(fs, src, true, platform.order).value;
    var subdirectories := ListNames(fs, src, false, platform.order).value;
    var moved := MoveFiles(fs, src, files, tgt, platform.faults);
    LevelFilesMove(fs, src, tgt, platform);
    var visited := MoveSubdirs(moved.fs, src, subdirectories, tgt, platform);
    MoveSubdirsFrame(moved.fs, src, subdirectories, tgt, platform);
    assert !ReachedBySubdirs(src, tgt, subdirectories, src) by {
      forall d | d in subdirectories ensures !Reaches(src + [d], tgt + [d], src) {
        SourceUntouchedBySubdirectory(src, tgt, d);
      }
    }
    assert DirExists(visited, src);
    var r := MoveTree(fs, src, tgt, platform);
    assert r == Run(DeleteTree(visited, src).value, None);
    forall m | IsFile(fs, src + [m]) ensures tgt + [m] in r.fs && r.fs[tgt + [m]] == fs[src + [m]] {
      assert m !in subdirectories;
      assert !ReachedBySubdirs(src, tgt, subdirectories, tgt + [m]) by {
        forall d | d in subdirectories ensures !Reaches(src + [d], tgt + [d], tgt + [m]) {
          OtherSubdirectoryUntouched(src, tgt, d, [m]);
        }
      }
      ChildrenStayDisjoint(src, tgt, m);
    }
  }

  /** The file loop of a level whose files are all movable moves every one of
      them and leaves the source directory in place. */
  lemma LevelFilesMove(fs: Fs, src: Path, tgt: Path, platform: Platform)
    requires ValidOrder(platform.order) && Disjoint(src, tgt)
    requires DirExists(fs, src) && DirExists(fs, tgt)
    requires forall m :: IsFile(fs, src + [m]) ==> Movable(fs, src, tgt, m, platform.faults)
    ensures var moved := MoveFiles(fs, src, ListNames(fs, src, true, platform.order).value, tgt, platform.faults);
      && moved.caught.None?
      && Agree(fs, moved.fs, src)
      && (forall m :: IsFile(fs, src + [m]) ==> tgt + [m] in moved.fs && moved.fs[tgt + [m]] == fs[src + [m]])
  {
    var files := ListNames(fs, src, true, platform.order).value;
    var moved := MoveFiles(fs, src, files, tgt, platform.faults);
    assert Enumerates(files, ChildNames(fs, src, true));
    MoveFilesEffect(fs, src, files, tgt, platform.faults);
    forall i | 0 <= i < |files| ensures Movable(fs, src, tgt, files[i], platform.faults) {
      assert files[i] in files;
    }
    assert moved.caught.None?;
    assert files[..moved.done] == files;
    assert IsPrefix(Parent(src), src) && |Parent(src)| < |src|;
    assert !Relocated(src, src, tgt, files);
    forall m | IsFile(fs, src + [m]) ensures tgt + [m] in moved.fs && moved.fs[tgt + [m]] == fs[src + [m]] {
      assert m in files;
      var i :| 0 <= i < |files| && files[i] == m;
    }
  }

  /** Catch-and-continue loses data: a file one level down whose name is taken
      under the target stays unmoved (the nested call catches the collision),
      and the parent, seeing no exception, deletes the source tree with that
      file in it. The file's content is then nowhere it could be looked for. */
  lemma NestedCollisionLosesFile(fs: Fs, src: Path, tgt: Path, platform: Platform, d: string, f: string)
    requires WellFormed(fs) && ValidOrder(platform.order) && Disjoint(src, tgt)
    requires DirExists(fs, src) && DirExists(fs, tgt)
    requires forall m :: IsFile(fs, src + [m]) ==> Movable(fs, src, tgt, m, platform.faults)
    requires IsFile(fs, src + [d] + [f]) && tgt + [d] + [f] in fs
    requires fs[tgt + [d] + [f]] != fs[src + [d] + [f]]
    ensures var r := MoveTree(fs, src, tgt, platform);
      && r.caught.None?
      && src + [d] + [f] !in r.fs
      && Agree(fs, r.fs, tgt + [d] + [f])
      && !KeptAt(fs, r.fs, src + [d] + [f], tgt + [d] + [f])
  {
    LevelCompletesDespiteSubdirectoryFailures(fs, src, tgt, platform);
    LevelFilesMove(fs, src, tgt, platform);
    var files := ListNames(fs, src, true, platform.order).value;
    var subdirectories := ListNames(fs, src, false, platform.order).value;
    var moved := MoveFiles(fs, src, files, tgt, platform.faults);
    var visited := MoveSubdirs(moved.fs, src, subdirectories, tgt, platform);
    var q := tgt + [d] + [f];
    CombineParts(src, d);
    CombineParts(src + [d], f);
    CombineParts(tgt, d);
    CombineParts(tgt + [d], f);
    PrefixTransitive(src, src + [d], src + [d] + [f]);
    PrefixTransitive(tgt, tgt + [d], q);
    DisjointDescendants(src, tgt, src, q);
    DisjointDescendants(src, tgt, src, tgt + [d]);
    // The file loop of this level leaves q alone.
    MoveFilesStaysInside(fs, src, files, tgt, platform.faults);
    MoveFilesEffect(fs, src, files, tgt, platform.faults);
    assert Enumerates(files, ChildNames(fs, src, true));
    assert |Parent(q)| > |tgt| && Parent(q) != src;
    assert !Relocated(q, src, tgt, files[..moved.done]);
    // Neither does the subdirectory d, by CollisionAbortsLevel one level down.
    assert Enumerates(subdirectories, ChildNames(fs, src, false));
    assert DirExists(fs, src + [d]) by {
      AncestorsAreDirectories(fs, src + [d], src + [d] + [f]);
    }
    MoveFilesPreservesWellFormed(fs, src, files, tgt, platform.faults);
    assert !Relocated(src + [d], src, tgt, files[..moved.done]) && !Relocated(src + [d] + [f], src, tgt, files[..moved.done]);
    SubdirsKeepCollidingEntry(moved.fs, src, subdirectories, tgt, platform, d, f);
    assert Agree(fs, visited, q);
    assert DirExists(visited, src) by {
      MoveSubdirsFrame(moved.fs, src, subdirectories, tgt, platform);
      forall e | e in subdirectories ensures !Reaches(src + [e], tgt + [e], src) {
        SourceUntouchedBySubdirectory(src, tgt, e);
      }
    }
    assert MoveTree(fs, src, tgt, platform).fs == DeleteTree(visited, src).value;
  }

  /** The subdirectory loop leaves `tgt\d\f` alone when `src\d\f` is a file
      it would have to move there. */
  lemma {:induction false} SubdirsKeepCollidingEntry(fs: Fs, src: Path, names: seq<string>, tgt: Path, platform: Platform, d: string, f: string)
    requires PathLength(tgt) <= MaxPath && WellFormed(fs) && ValidOrder(platform.order)
    requires Disjoint(src, tgt) && Distinct(names)
    requires tgt + [d] + [f] in fs
    requires d in names ==> DirExists(fs, src + [d]) && IsFile(fs, src + [d] + [f])
    ensures Agree(fs, MoveSubdirs(fs, src, names, tgt, platform), tgt + [d] + [f])
    decreases |names|
  {
    if names == [] {
      return;
    }
    var n := names[0];
    var rest := names[1..];
    PathLengthCombine(tgt, n);
    var mid := MoveTree(fs, src + [n], tgt + [n], platform).fs;
    MoveTreePreservesWellFormed(fs, src + [n], tgt + [n], platform);
    assert Distinct(rest);
    assert forall m :: m in rest ==> m in names && m != n;
    var q := tgt + [d] + [f];
    assert src + [d] + [f] == src + [d, f] && q == tgt + [d, f];
    if n == d {
      ChildrenStayDisjoint(src, tgt, d);
      CombineParts(tgt + [d], f);
      assert DirExists(fs, tgt + [d]);
      CollisionAbortsLevel(fs, src + [d], tgt + [d], platform, f);
    } else {
      MoveTreeFrame(fs, src + [n], tgt + [n], platform);
      OtherSubdirectoryUntouched(src, tgt, n, [d, f]);
      OtherSubdirectoryUntouched(src, tgt, n, [d]);
    }
    SubdirsKeepCollidingEntry(mid, src, rest, tgt, platform, d, f);
  }

  /** Moving a directory with nothing in it creates the target and removes the
      source, and changes nothing else. */
  lemma MoveEmptyDirectory(fs: Fs, src: Path, tgt: Path, platform: Platform)
    requires ValidOrder(platform.order) && !IsPrefix(src, tgt)
    requires DirExists(fs, src) && forall q :: q in fs && IsPrefix(src, q) ==> q == src
    ensures EnsureTarget(fs, tgt).Err? ==> MoveTree(fs, src, tgt, platform).fs == fs
    ensures EnsureTarget(fs, tgt).Ok? ==>
      MoveTree(fs, src, tgt, platform) == Run(EnsureTarget(fs, tgt).value - {src}, None)
  {
    if EnsureTarget(fs, tgt).Ok? {
      var fs1 := EnsureTarget(fs, tgt).value;
      forall n ensures src + [n] !in fs1 {
        CombineParts(src, n);
        if IsPrefix(src + [n], tgt) {
          PrefixTransitive(src, src + [n], tgt);
        }
      }
      assert ChildNames(fs1, src, true) == {} && ChildNames(fs1, src, false) == {};
      ListingOfNothing(platform.order);
      var deleted := DeleteTree(fs1, src).value;
      forall q | q in fs1 && IsPrefix(src, q) ensures q == src {
        if IsPrefix(q, tgt) {
          PrefixTransitive(src, q, tgt);
        }
      }
      assert deleted == fs1 - {src};
    }
  }

  /** `q` lies under one of the subdirectories `names` of `src`. */
  ghost predicate InsideSubdirs(src: Path, names: seq<string>, q: Path) {
    exists n :: n in names && IsPrefix(src + [n], q)
  }

  /** The file loop only removes files of the source directory and only adds
      new entries. */
  lemma {:induction false} MoveFilesOnlyRemovesSources(fs: Fs, src: Path, names: seq<string>, tgt: Path, faults: set<Path>)
    ensures var r := MoveFiles(fs, src, names, tgt, faults);
      forall q :: q in fs && !IsPrefix(src, q) ==> q in r.fs && r.fs[q] == fs[q]
    decreases |names|
  {
    if names != [] {
      CombineParts(src, names[0]);
      match FileMove(fs, src + [names[0]], tgt + [names[0]], faults)
      case Err(_) =>
      case Ok(fs') =>
        MoveFilesOnlyRemovesSources(fs', src, names[1..], tgt, faults);
    }
  }

  /** MoveDirectory(src, tgt) never changes or removes an entry outside the
      source tree: it only adds the target and what it moves there. */
  lemma {:induction false} OutsideSourceUnchanged(fs: Fs, src: Path, tgt: Path, platform: Platform)
    ensures var r := MoveTree(fs, src, tgt, platform);
      forall q :: q in fs && !IsPrefix(src, q) ==> q in r.fs && r.fs[q] == fs[q]
    decreases Budget(tgt), 1
  {
    match EnsureTarget(fs, tgt)
    case Err(_) =>
    case Ok(fs1) =>
      match ListNames(fs1, src, true, platform.order)
      case Err(_) =>
      case Ok(files) =>
        match ListNames(fs1, src, false, platform.order)
        case Err(_) =>
        case Ok(subdirectories) =>
          var moved := MoveFiles(fs1, src, files, tgt, platform.faults);
          MoveFilesOnlyRemovesSources(fs1, src, files, tgt, platform.faults);
          if moved.caught.None? {
            MoveSubdirsOutsideUnchanged(moved.fs, src, subdirectories, tgt, platform);
            OutsideIsOutsideSubdirs(src, subdirectories);
          }
  }

  /** What lies outside a directory lies outside each of its subdirectories. */
  lemma OutsideIsOutsideSubdirs(src: Path, names: seq<string>)
    ensures forall q :: !IsPrefix(src, q) ==> !InsideSubdirs(src, names, q)
  {
    forall q | !IsPrefix(src, q) ensures !InsideSubdirs(src, names, q) {
      forall n | n in names ensures !IsPrefix(src + [n], q) {
        if IsPrefix(src + [n], q) {
          PrefixCombine(src, n, q);
        }
      }
    }
  }

  lemma {:induction false} MoveSubdirsOutsideUnchanged(fs: Fs, src: Path, names: seq<string>, tgt: Path, platform: Platform)
    requires PathLength(tgt) <= MaxPath
    ensures var r := MoveSubdirs(fs, src, names, tgt, platform);
      forall q :: q in fs && !InsideSubdirs(src, names, q) ==> q in r && r[q] == fs[q]
    decreases Budget(tgt), 0, |names|
  {
    if names != [] {
      var n := names[0];
      PathLengthCombine(tgt, n);
      var mid := MoveTree(fs, src + [n], tgt + [n], platform).fs;
      OutsideSourceUnchanged(fs, src + [n], tgt + [n], platform);
      MoveSubdirsOutsideUnchanged(mid, src, names[1..], tgt, platform);
      forall q | !InsideSubdirs(src, names, q)
        ensures !IsPrefix(src + [n], q) && !InsideSubdirs(src, names[1..], q)
      {
        assert n in names;
        forall m | m in names[1..] ensures !IsPrefix(src + [m], q) {
          assert m in names;
        }
      }
    }
  }

  /** Nothing stops the target from lying inside the source. Then the source's
      subdirectories include the target's branch, and once the level's own files
      have moved into the target, the final recursive delete of the source
      removes the target with them: no file of the source survives anywhere. */
  lemma TargetInsideSourceLosesEverything(fs: Fs, src: Path, tgt: Path, platform: Platform)
    requires ValidOrder(platform.order) && IsPrefix(src, tgt) && src != tgt && src != []
    requires DirExists(fs, src) && DirExists(fs, tgt)
    requires forall m :: IsFile(fs, src + [m]) ==> Movable(fs, src, tgt, m, platform.faults)
    ensures var r := MoveTree(fs, src, tgt, platform);
      && r.caught.None?
      && (forall rel :: IsFile(fs, src + rel) ==> src + rel !in r.fs && tgt + rel !in r.fs)
  {
    var files := ListNames(fs, src, true, platform.order).value;
    var subdirectories := ListNames(fs, src, false, platform.order).value;
    var moved := MoveFiles(fs, src, files, tgt, platform.faults);
    assert Enumerates(files, ChildNames(fs, src, true));
    MoveFilesEffect(fs, src, files, tgt, platform.faults);
    forall i | 0 <= i < |files| ensures Movable(fs, src, tgt, files[i], platform.faults) {
      assert files[i] in files;
    }
    assert moved.caught.None?;
    assert |Parent(src)| < |src| <= |tgt|;
    assert !Relocated(src, src, tgt, files[..moved.done]);
    var visited := MoveSubdirs(moved.fs, src, subdirectories, tgt, platform);
    MoveSubdirsOutsideUnchanged(moved.fs, src, subdirectories, tgt, platform);
    assert !InsideSubdirs(src, subdirectories, src);
    assert DirExists(visited, src);
    var r := MoveTree(fs, src, tgt, platform);
    assert r == Run(DeleteTree(visited, src).value, None);
    forall rel | IsFile(fs, src + rel) ensures src + rel !in r.fs && tgt + rel !in r.fs {
      PrefixOfAppend(src, rel);
      PrefixOfAppend(tgt, rel);
      PrefixTransitive(src, tgt, tgt + rel);
    }
  }

  /** With the source as its own target, every move is a rename onto the
      file's own name: the file loop completes and changes nothing, provided
      no move fails for a reason of the platform's. */
  lemma {:induction false} MoveFilesOntoThemselves(fs: Fs, src: Path, names: seq<string>, faults: set<Path>)
    requires forall i :: 0 <= i < |names| ==>
      IsFile(fs, src + [names[i]]) && PathLength(src + [names[i]]) <= MaxPath && src + [names[i]] !in faults
    ensures MoveFiles(fs, src, names, src, faults) == Progress(fs, |names|, None)
    decreases |names|
  {
    if names != [] {
      assert FileMove(fs, src + [names[0]], src + [names[0]], faults) == Ok(fs);
      MoveFilesOntoThemselves(fs, src, names[1..], faults);
    }
  }

  /** Nothing stops the target from being the source itself (the cache's own
      location typed into the dialog). Every file is then moved onto its own
      name, which changes nothing, every subdirectory is handed to a nested call
      that can only touch that subdirectory, and the final recursive delete
      removes the whole source: the call reports success, no entry of the
      source is left, and nothing outside it changes. */
  lemma SelfTargetDeletesSource(fs: Fs, src: Path, platform: Platform)
    requires WellFormed(fs) && ValidOrder(platform.order) && src != [] && DirExists(fs, src)
    requires forall m :: IsFile(fs, src + [m]) ==> src + [m] !in platform.faults
    ensures var r := MoveTree(fs, src, src, platform);
      && r.caught.None?
      && (forall q :: IsPrefix(src, q) ==> q !in r.fs)
      && (forall q :: q in fs && !IsPrefix(src, q) ==> q in r.fs && r.fs[q] == fs[q])
  {
    var files := ListNames(fs, src, true, platform.order).value;
    var subdirectories := ListNames(fs, src, false, platform.order).value;
    assert Enumerates(files, ChildNames(fs, src, true));
    forall i | 0 <= i < |files|
      ensures IsFile(fs, src + [files[i]]) && PathLength(src + [files[i]]) <= MaxPath
      ensures src + [files[i]] !in platform.faults
    {
      assert files[i] in files;
    }
    MoveFilesOntoThemselves(fs, src, files, platform.faults);
    MoveSubdirsOutsideUnchanged(fs, src, subdirectories, src, platform);
    assert !InsideSubdirs(src, subdirectories, src);
    OutsideSourceUnchanged(fs, src, src, platform);
  }

  /** The file loop removes only files: every directory survives it. */
  lemma {:induction false} MoveFilesKeepsDirectories(fs: Fs, src: Path, names: seq<string>, tgt: Path, faults: set<Path>)
    ensures var r := MoveFiles(fs, src, names, tgt, faults);
      forall q :: q in fs && fs[q].Dir? ==> q in r.fs && r.fs[q] == Dir
    decreases |names|
  {
    if names != [] {
      match FileMove(fs, src + [names[0]], tgt + [names[0]], faults)
      case Err(_) =>
      case Ok(fs') =>
        MoveFilesKeepsDirectories(fs', src, names[1..], tgt, faults);
    }
  }

  /** A level reports success exactly when its source directory is gone: the
      recursive delete, the last step, is the only one that removes it, and it
      runs only once both loops are through. */
  lemma SourceDeletedExactlyWhenLevelCompletes(fs: Fs, src: Path, tgt: Path, platform: Platform)
    requires src != [] && DirExists(fs, src)
    ensures var r := MoveTree(fs, src, tgt, platform);
      && (r.caught.None? <==> src !in r.fs)
      && (r.caught.None? ==> forall q :: IsPrefix(src, q) ==> q !in r.fs)
  {
    match EnsureTarget(fs, tgt)
    case Err(_) =>
    case Ok(fs1) =>
      assert IsPrefix(src, tgt) ==> src in Prefixes(tgt) by {
        PrefixesAreAncestors(tgt);
      }
      assert DirExists(fs1, src);
      var files := ListNames(fs1, src, true, platform.order).value;
      var subdirectories := ListNames(fs1, src, false, platform.order).value;
      var moved := MoveFiles(fs1, src, files, tgt, platform.faults);
      MoveFilesKeepsDirectories(fs1, src, files, tgt, platform.faults);
      if moved.caught.None? {
        var visited := MoveSubdirs(moved.fs, src, subdirectories, tgt, platform);
        MoveSubdirsOutsideUnchanged(moved.fs, src, subdirectories, tgt, platform);
        assert !InsideSubdirs(src, subdirectories, src);
        assert DirExists(visited, src);
      }
  }
}
