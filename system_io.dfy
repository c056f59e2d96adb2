/** The part of System.IO that the relocation routine calls (Directory.Exists,
    Directory.CreateDirectory, Directory.GetFiles, Directory.GetDirectories,
    File.Move, Directory.Delete with recursive = true), over an abstract
    filesystem: a map from path to entry. Each call is a function from the old
    filesystem to a result, and a method of class FileSystem that performs it. */
module SystemIO {
  import opened Options
  import opened Paths

  newtype byte = x: int | 0 <= x < 256

  datatype Node = File(content: seq<byte>) | Dir

  type Fs = map<Path, Node>

  /** The exceptions these calls raise, by cause. */
  datatype IoError =
    | PathTooLong       // PathTooLongException
    | NotFound          // FileNotFoundException, DirectoryNotFoundException
    | AlreadyExists     // IOException: the destination name is taken
    | MoveFailed        // the move primitive itself failed (access denied, disk full on a cross-volume copy)
    | RootNotDeletable  // the namespace root cannot be deleted
    | InvalidArgument   // ArgumentException: the path is empty or otherwise unusable

  datatype Result<T> = Ok(value: T) | Err(error: IoError)

  /** What a void System.IO call did: returned, or threw. */
  datatype Outcome = Completed | Threw(error: IoError)

  /** What the routine cannot see: the order in which a directory lists its
      entries (unspecified by .NET) and the files whose move fails. */
  datatype Platform = Platform(order: set<string> -> seq<string>, faults: set<Path>)

  /** `q` lists every element of `s` exactly once. */
  ghost predicate Enumerates(q: seq<string>, s: set<string>) {
    && (forall i, j :: 0 <= i < j < |q| ==> q[i] != q[j])
    && (forall x :: x in q <==> x in s)
  }

  ghost predicate ValidOrder(order: set<string> -> seq<string>) {
    forall s :: Enumerates(order(s), s)
  }

  /** The first element of a non-empty sequence is one of its elements. Kept
      apart so that ListingOfNothing can use it without its index being
      checked under the impossible case of a non-empty empty listing. */
  lemma FirstIsMember(q: seq<string>)
    ensures q != [] ==> q[0] in q
  {
  }

  /** An empty directory lists as the empty sequence. */
  lemma ListingOfNothing(order: set<string> -> seq<string>)
    requires ValidOrder(order)
    ensures order({}) == []
  {
    assert Enumerates(order({}), {});
    FirstIsMember(order({}));
  }

  predicate IsFile(fs: Fs, p: Path) {
    p in fs && fs[p].File?
  }

  /** Directory.Exists: false for a file and for a path over the length limit. */
  predicate DirExists(fs: Fs, p: Path) {
    p in fs && fs[p].Dir? && PathLength(p) <= MaxPath
  }

  /** `a` and `b` hold the same entry (or none) at `p`. */
  ghost predicate Agree(a: Fs, b: Fs, p: Path) {
    (p in a <==> p in b) && (p in a ==> a[p] == b[p])
  }

  /** A tree: the root is a directory, every other entry sits in a directory,
      and no path is over the length limit. */
  ghost predicate WellFormed(fs: Fs) {
    && [] in fs && fs[[]] == Dir
    && (forall p :: p in fs ==> PathLength(p) <= MaxPath)
    && (forall p :: p in fs && p != [] ==> Parent(p) in fs && fs[Parent(p)].Dir?)
  }

  lemma {:induction false} AncestorsAreDirectories(fs: Fs, q: Path, p: Path)
    requires WellFormed(fs) && p in fs && IsPrefix(q, p) && q != p
    ensures q in fs && fs[q].Dir?
    decreases |p|
  {
    assert IsPrefix(q, Parent(p)) by {
      assert Parent(p)[..|q|] == p[..|q|];
    }
    if q != Parent(p) {
      AncestorsAreDirectories(fs, q, Parent(p));
    }
  }

  function Prefixes(p: Path): set<Path> {
    set i | 0 <= i <= |p| :: p[..i]
  }

  lemma PrefixesAreAncestors(p: Path)
    ensures forall q :: q in Prefixes(p) <==> IsPrefix(q, p)
  {
    forall q | IsPrefix(q, p) ensures q in Prefixes(p) {
      assert q == p[..|q|];
    }
  }

  /** Directory.CreateDirectory: creates `p` and every missing ancestor below
      its volume. The first component names the volume (a drive or a UNC
      share), which CreateDirectory cannot create. */
  function CreateDir(fs: Fs, p: Path): (r: Result<Fs>)
    ensures r.Ok? <==> && PathLength(p) <= MaxPath
                       && (forall q :: IsPrefix(q, p) ==> !IsFile(fs, q))
                       && (p != [] ==> [p[0]] in fs)
    ensures r.Ok? ==> DirExists(r.value, p)
    ensures r.Ok? ==> forall q :: IsPrefix(q, p) ==> q in r.value && r.value[q] == Dir
    ensures r.Ok? ==> forall q :: !IsPrefix(q, p) ==> Agree(fs, r.value, q)
  {
    PrefixesAreAncestors(p);
    if PathLength(p) > MaxPath then
      Err(PathTooLong)
    else if exists i :: 0 <= i <= |p| && IsFile(fs, p[..i]) then
      assert exists q :: IsPrefix(q, p) && IsFile(fs, q);
      Err(AlreadyExists)
    else if p != [] && [p[0]] !in fs then
      Err(NotFound)
    else
      assert forall q :: IsPrefix(q, p) ==> q == p[..|q|];
      Ok(fs + map q | q in Prefixes(p) :: Dir)
  }

  /** Creating a directory that already exists changes nothing, so the
      Directory.Exists test in front of CreateDirectory only saves a call. */
  lemma CreateExistingIsNoOp(fs: Fs, p: Path)
    requires WellFormed(fs) && DirExists(fs, p)
    ensures CreateDir(fs, p) == Ok(fs)
  {
    forall q | IsPrefix(q, p) ensures q in fs && fs[q] == Dir {
      if q != p {
        AncestorsAreDirectories(fs, q, p);
      }
    }
    var r := CreateDir(fs, p);
    assert r.Ok?;
    assert r.value == fs;
  }

  lemma CreateDirIsIdempotent(fs: Fs, p: Path)
    requires CreateDir(fs, p).Ok?
    ensures CreateDir(CreateDir(fs, p).value, p) == CreateDir(fs, p)
  {
    var fs' := CreateDir(fs, p).value;
    assert forall q :: IsPrefix(q, p) ==> !IsFile(fs', q);
    var r := CreateDir(fs', p);
    assert r.value == fs';
  }

  lemma CreateDirPreservesWellFormed(fs: Fs, p: Path)
    requires WellFormed(fs) && CreateDir(fs, p).Ok?
    ensures WellFormed(CreateDir(fs, p).value)
  {
    var fs' := CreateDir(fs, p).value;
    forall q | q in fs' ensures PathLength(q) <= MaxPath {
      if IsPrefix(q, p) {
        PathLengthPrefix(q, p);
      }
    }
    forall q | q in fs' && q != [] ensures Parent(q) in fs' && fs'[Parent(q)].Dir? {
      if IsPrefix(q, p) {
        assert IsPrefix(Parent(q), p) by {
          assert p[..|Parent(q)|] == q[..|Parent(q)|];
        }
      } else if IsPrefix(Parent(q), p) {
      }
    }
  }

  /** The names of the files (`files`) or of the subdirectories of `dir`. */
  function ChildNames(fs: Fs, dir: Path, files: bool): (r: set<string>)
    ensures forall n :: n in r <==> dir + [n] in fs && fs[dir + [n]].File? == files
  {
    var r := set p | p in fs && |p| == |dir| + 1 && p[..|dir|] == dir && fs[p].File? == files :: p[|dir|];
    forall n | n in r ensures dir + [n] in fs && fs[dir + [n]].File? == files {
      var p :| p in fs && |p| == |dir| + 1 && p[..|dir|] == dir && fs[p].File? == files && p[|dir|] == n;
      assert p == dir + [n];
    }
    forall n | dir + [n] in fs && fs[dir + [n]].File? == files ensures n in r {
      var p := dir + [n];
      assert p[..|dir|] == dir && p[|dir|] == n;
    }
    r
  }

  /** Directory.GetFiles (`files`) or Directory.GetDirectories: the names of the
      immediate entries of that kind, in the platform's order. */
  function ListNames(fs: Fs, dir: Path, files: bool, order: set<string> -> seq<string>): (r: Result<seq<string>>)
    ensures r.Ok? <==> DirExists(fs, dir)
    ensures r.Ok? && ValidOrder(order) ==> forall n :: n in r.value <==> dir + [n] in fs && fs[dir + [n]].File? == files
  {
    if !DirExists(fs, dir) then Err(NotFound) else Ok(order(ChildNames(fs, dir, files)))
  }

  /** File.Move(from, to) without overwrite. Moving a file onto its own name
      is a rename to the same name, which succeeds and changes nothing. */
  function FileMove(fs: Fs, from: Path, to: Path, faults: set<Path>): (r: Result<Fs>)
    ensures r.Ok? ==> IsFile(fs, from) && (to !in fs || to == from) && from !in faults && PathLength(to) <= MaxPath
    ensures to in fs && to != from ==> r.Err?
    ensures r.Ok? ==> to in r.value && r.value[to] == fs[from] && (from != to ==> from !in r.value)
    ensures r.Ok? ==> forall q :: q != from && q != to ==> Agree(fs, r.value, q)
    ensures r.Ok? && from == to ==> r.value == fs
  {
    if !IsFile(fs, from) then Err(NotFound)
    else if PathLength(to) > MaxPath then Err(PathTooLong)
    else if to == from then (if from in faults then Err(MoveFailed) else Ok(fs))
    else if to in fs then Err(AlreadyExists)
    else if to == [] || !DirExists(fs, Parent(to)) then Err(NotFound)
    else if from in faults then Err(MoveFailed)
    else Ok((fs - {from})[to := fs[from]])
  }

  lemma FileMovePreservesWellFormed(fs: Fs, from: Path, to: Path, faults: set<Path>)
    requires WellFormed(fs) && FileMove(fs, from, to, faults).Ok?
    ensures WellFormed(FileMove(fs, from, to, faults).value)
  {
    var fs' := FileMove(fs, from, to, faults).value;
    forall q | q in fs' && q != [] ensures Parent(q) in fs' && fs'[Parent(q)].Dir? {
      if q != to {
        assert Parent(q) != from;
      }
    }
  }

  /** Directory.Delete(p, recursive: true): removes `p` and everything under it. */
  function DeleteTree(fs: Fs, p: Path): (r: Result<Fs>)
    ensures r.Ok? <==> p != [] && DirExists(fs, p)
    ensures r.Ok? ==> forall q :: IsPrefix(p, q) ==> q !in r.value
    ensures r.Ok? ==> forall q :: !IsPrefix(p, q) ==> Agree(fs, r.value, q)
  {
    if p == [] then Err(RootNotDeletable)
    else if !DirExists(fs, p) then Err(NotFound)
    else Ok(map q | q in fs && !IsPrefix(p, q) :: fs[q])
  }

  lemma DeleteTreePreservesWellFormed(fs: Fs, p: Path)
    requires WellFormed(fs) && DeleteTree(fs, p).Ok?
    ensures WellFormed(DeleteTree(fs, p).value)
  {
    var fs' := DeleteTree(fs, p).value;
    assert !IsPrefix(p, []);
    forall q | q in fs' && q != [] ensures Parent(q) in fs' && fs'[Parent(q)].Dir? {
      if IsPrefix(p, Parent(q)) {
        PrefixTransitive(p, Parent(q), q);
      }
    }
  }

  /** The machine's filesystem, as the dialog's calls see and change it. */
  class FileSystem {
    var entries: Fs
    const order: set<string> -> seq<string>
    const faults: set<Path>

    constructor (entries: Fs, order: set<string> -> seq<string>, faults: set<Path>)
      ensures this.entries == entries && this.order == order && this.faults == faults
    {
      this.entries := entries;
      this.order := order;
      this.faults := faults;
    }

    function Facts(): Platform {
      Platform(order, faults)
    }

    method Exists(p: Path) returns (b: bool)
      ensures b <==> p in entries && entries[p].Dir? && PathLength(p) <= MaxPath
    {
      b := DirExists(entries, p);
    }

    method CreateDirectory(p: Path) returns (o: Outcome)
      modifies this
      ensures match CreateDir(old(entries), p)
              case Ok(fs) => o == Completed && entries == fs
              case Err(e) => o == Threw(e) && entries == old(entries)
    {
      var r := CreateDir(entries, p);
      if r.Ok? {
        entries := r.value;
        o := Completed;
      } else {
        o := Threw(r.error);
      }
    }

    method GetFiles(dir: Path) returns (r: Result<seq<string>>)
      ensures r == ListNames(entries, dir, true, order)
    {
      r := ListNames(entries, dir, true, order);
    }

    method GetDirectories(dir: Path) returns (r: Result<seq<string>>)
      ensures r == ListNames(entries, dir, false, order)
    {
      r := ListNames(entries, dir, false, order);
    }

    method Move(from: Path, to: Path) returns (o: Outcome)
      modifies this
      ensures match FileMove(old(entries), from, to, faults)
              case Ok(fs) => o == Completed && entries == fs
              case Err(e) => o == Threw(e) && entries == old(entries)
    {
      var r := FileMove(entries, from, to, faults);
      if r.Ok? {
        entries := r.value;
        o := Completed;
      } else {
        o := Threw(r.error);
      }
    }

    method Delete(p: Path) returns (o: Outcome)
      modifies this
      ensures match DeleteTree(old(entries), p)
              case Ok(fs) => o == Completed && entries == fs
              case Err(e) => o == Threw(e) && entries == old(entries)
    {
      var r := DeleteTree(entries, p);
      if r.Ok? {
        entries := r.value;
        o := Completed;
      } else {
        o := Threw(r.error);
      }
    }
  }
}
