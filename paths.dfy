/** Paths as System.IO builds them: a path is the sequence of its components,
    and Path.Combine(dir, name) appends one component. The empty path is the
    namespace root above the volumes ("C:" is an ordinary first component). */
module Paths {

  import opened Options

  type Path = seq<string>

  /** Longest path, in characters, that the Windows file APIs accept
      (the extended-length limit). */
  const MaxPath: nat := 32767

  function Parent(p: Path): Path
    requires p != []
  {
    p[..|p| - 1]
  }

  function Name(p: Path): string
    requires p != []
  {
    p[|p| - 1]
  }

  /** `q` is `p` or one of its ancestors. */
  predicate IsPrefix(q: Path, p: Path) {
    |q| <= |p| && p[..|q|] == q
  }

  /** Neither path lies inside the other (and so neither is the root). */
  predicate Disjoint(a: Path, b: Path) {
    !IsPrefix(a, b) && !IsPrefix(b, a)
  }

  /** Length in characters of the path written with one separator per component. */
  function PathLength(p: Path): nat {
    if p == [] then 0 else PathLength(Parent(p)) + |Name(p)| + 1
  }

  /** What is left of the length limit below `p`; every recursive step of the
      relocation goes one component deeper and so spends part of it. */
  function Budget(p: Path): nat {
    if PathLength(p) <= MaxPath then MaxPath + 1 - PathLength(p) else 0
  }

  lemma PathLengthCombine(p: Path, n: string)
    ensures PathLength(p + [n]) == PathLength(p) + |n| + 1
    ensures PathLength(p) <= MaxPath ==> Budget(p + [n]) < Budget(p)
  {
    assert Parent(p + [n]) == p;
  }

  lemma {:induction false} PathLengthPrefix(q: Path, p: Path)
    requires IsPrefix(q, p)
    ensures PathLength(q) <= PathLength(p)
    decreases |p|
  {
    if |q| < |p| {
      assert IsPrefix(q, Parent(p)) by {
        assert Parent(p)[..|q|] == p[..|q|];
      }
      PathLengthPrefix(q, Parent(p));
    } else {
      assert q == p;
    }
  }

  lemma PrefixCombine(q: Path, n: string, p: Path)
    requires IsPrefix(q + [n], p)
    ensures IsPrefix(q, p) && |p| > |q| && p[|q|] == n
  {
    assert p[..|q|] == (q + [n])[..|q|];
  }

  /** The ancestors of `p + [n]` are `p + [n]` itself and the ancestors of `p`. */
  lemma PrefixOfCombine(q: Path, p: Path, n: string)
    requires IsPrefix(q, p + [n])
    ensures IsPrefix(q, p) || q == p + [n]
  {
    if |q| <= |p| {
      assert (p + [n])[..|q|] == p[..|q|];
    }
  }

  lemma PrefixTransitive(a: Path, b: Path, c: Path)
    requires IsPrefix(a, b) && IsPrefix(b, c)
    ensures IsPrefix(a, c)
  {
    assert c[..|a|] == c[..|b|][..|a|];
  }

  lemma CombineAssociates(p: Path, n: string, rel: Path)
    ensures p + ([n] + rel) == (p + [n]) + rel
    ensures IsPrefix(p, p + rel) && (p + rel)[..|p|] == p
  {
    assert (p + rel)[..|p|] == p;
  }

  lemma PrefixOfAppend(p: Path, rel: Path)
    ensures IsPrefix(p, p + rel)
  {
    assert (p + rel)[..|p|] == p;
  }

  lemma PrefixesComparable(a: Path, b: Path, c: Path)
    requires IsPrefix(a, c) && IsPrefix(b, c)
    ensures IsPrefix(a, b) || IsPrefix(b, a)
  {
    if |a| <= |b| {
      assert b[..|a|] == c[..|b|][..|a|];
    } else {
      assert a[..|b|] == c[..|a|][..|b|];
    }
  }

  /** Paths under two disjoint paths are disjoint. */
  lemma DisjointDescendants(a: Path, b: Path, x: Path, y: Path)
    requires Disjoint(a, b) && IsPrefix(a, x) && IsPrefix(b, y)
    ensures Disjoint(x, y)
  {
    if IsPrefix(x, y) {
      PrefixTransitive(a, x, y);
      PrefixesComparable(a, b, y);
    }
    if IsPrefix(y, x) {
      PrefixTransitive(b, y, x);
      PrefixesComparable(a, b, x);
    }
  }

  predicate IsSeparator(c: char) {
    c == '\\' || c == '/'
  }

  /** The components of `s`, continuing the component `current` that is being
      read: runs of separators delimit components and produce none. */
  function SplitFrom(s: string, current: string): (r: Path)
    requires forall i :: 0 <= i < |current| ==> !IsSeparator(current[i])
    ensures forall k :: 0 <= k < |r| ==> r[k] != "" && forall i :: 0 <= i < |r[k]| ==> !IsSeparator(r[k][i])
    ensures current != "" ==> r != [] && |r[0]| >= |current| && r[0][..|current|] == current
    decreases |s|
  {
    if s == [] then
      (if current == "" then [] else [current])
    else if IsSeparator(s[0]) then
      (if current == "" then [] else [current]) + SplitFrom(s[1..], "")
    else
      SplitFrom(s[1..], current + [s[0]])
  }

  /** The path a string names, as the file APIs read it; the empty string names
      no path (the APIs reject it with an ArgumentException). */
  function ParsePath(s: string): (r: Option<Path>)
    ensures r.None? <==> s == ""
    ensures r.Some? ==> forall k :: 0 <= k < |r.value| ==> r.value[k] != ""
  {
    if s == "" then None else Some(SplitFrom(s, ""))
  }

  /** A component as it can appear in a path: non-empty, with no separator. */
  predicate IsComponent(w: string) {
    w != "" && forall i :: 0 <= i < |w| ==> !IsSeparator(w[i])
  }

  /** The text of a path: its components with a backslash between each two. */
  function Join(p: Path): string {
    if |p| <= 1 then (if p == [] then "" else p[0]) else p[0] + "\\" + Join(p[1..])
  }

  /** Reading on through characters that are no separators only extends the
      component being read. */
  lemma {:induction false} SplitThroughComponent(w: string, t: string, current: string)
    requires forall i :: 0 <= i < |current| ==> !IsSeparator(current[i])
    requires forall i :: 0 <= i < |w| ==> !IsSeparator(w[i])
    ensures SplitFrom(w + t, current) == SplitFrom(t, current + w)
    decreases |w|
  {
    if w == [] {
      assert w + t == t && current + w == current;
    } else {
      assert (w + t)[0] == w[0] && (w + t)[1..] == w[1..] + t;
      assert current + w == (current + [w[0]]) + w[1..];
      SplitThroughComponent(w[1..], t, current + [w[0]]);
    }
  }

  /** Reading a joined path gives back its components. */
  lemma {:induction false} SplitJoin(p: Path)
    requires p != [] && forall k :: 0 <= k < |p| ==> IsComponent(p[k])
    ensures SplitFrom(Join(p), "") == p
    decreases |p|
  {
    if |p| == 1 {
      SplitThroughComponent(p[0], "", "");
      assert p[0] + "" == p[0] && "" + p[0] == p[0];
    } else {
      var rest := "\\" + Join(p[1..]);
      assert Join(p) == p[0] + rest;
      SplitThroughComponent(p[0], rest, "");
      assert "" + p[0] == p[0];
      assert rest[0] == '\\' && rest[1..] == Join(p[1..]);
      SplitJoin(p[1..]);
      assert p == [p[0]] + p[1..];
    }
  }

  /** ParsePath reads the components of a path back from its text: a path of
      proper components, written out with separators, parses to itself. */
  lemma ParsePathJoin(p: Path)
    requires p != [] && forall k :: 0 <= k < |p| ==> IsComponent(p[k])
    ensures ParsePath(Join(p)) == Some(p)
  {
    SplitJoin(p);
    assert SplitFrom("", "") == [];
  }
}
