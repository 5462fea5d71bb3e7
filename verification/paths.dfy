/**
 * The path-string operations the entry points use to turn the matched
 * reference image's path into a person's name: POSIX `basename` and
 * `dirname`, and `str.split` on the separator.
 */
module Paths {
  import opened Optional

  /** `os.sep` on a POSIX system. */
  const Sep: char := '/'

  /** A single directory-listing name: non-empty and without a separator. */
  predicate IsComponent(s: string) {
    |s| > 0 && Sep !in s
  }

  predicate AllSep(s: string) {
    forall i | 0 <= i < |s| :: s[i] == Sep
  }

  /** `s.rfind(Sep)`: the index of the last separator, or -1 when there is none. */
  function LastSep(s: string): (r: int)
    ensures -1 <= r < |s|
    ensures 0 <= r ==> s[r] == Sep
    ensures forall i | r < i < |s| :: s[i] != Sep
  {
    if s == [] then -1
    else if s[|s| - 1] == Sep then |s| - 1
    else LastSep(s[..|s| - 1])
  }

  /** `posixpath.basename`: everything after the last separator. */
  function Basename(p: string): (r: string)
    ensures Sep !in r
    ensures |r| <= |p| && p[|p| - |r|..] == r
    ensures |r| < |p| ==> p[|p| - |r| - 1] == Sep
  {
    p[LastSep(p) + 1..]
  }

  /** `s.rstrip(Sep)`. */
  function RStripSep(s: string): (r: string)
    ensures |r| <= |s| && s[..|r|] == r
    ensures r == [] || r[|r| - 1] != Sep
    ensures forall i | |r| <= i < |s| :: s[i] == Sep
  {
    if s != [] && s[|s| - 1] == Sep then RStripSep(s[..|s| - 1]) else s
  }

  /**
   * `posixpath.dirname`: the part up to the last separator, with trailing
   * separators removed unless that part consists of separators only.
   */
  function Dirname(p: string): (r: string)
    ensures |r| <= |p| && p[..|r|] == r
    ensures Sep !in p ==> r == []
    ensures Sep in p && AllSep(p[..LastSep(p) + 1]) ==> r == p[..LastSep(p) + 1]
    ensures Sep in p && !AllSep(p[..LastSep(p) + 1]) ==>
      && 0 < |r| <= LastSep(p) && r[|r| - 1] != Sep
      && forall i | |r| <= i <= LastSep(p) :: p[i] == Sep
  {
    var head := p[..LastSep(p) + 1];
    if head != [] && !AllSep(head) then RStripSep(head) else head
  }

  /** `os.path.basename(os.path.dirname(p))`: the name of the directory holding `p`. */
  function BaseDir(p: string): (r: string)
    ensures Sep !in r
  {
    Basename(Dirname(p))
  }

  lemma LastSepOfSuffix(a: string, b: string)
    requires Sep !in b
    ensures LastSep(a + [Sep] + b) == |a|
  {
    var s := a + [Sep] + b;
    assert s[|a|] == Sep;
  }

  /**
   * For an image path `<prefix>/<name>/<file>` the derived name is `<name>`,
   * whatever the prefix.
   */
  lemma BaseDirOfImagePath(prefix: string, name: string, file: string)
    requires IsComponent(name) && Sep !in file
    ensures BaseDir(prefix + [Sep] + name + [Sep] + file) == name
  {
    var dir := prefix + [Sep] + name;
    var p := dir + [Sep] + file;
    assert p == prefix + [Sep] + name + [Sep] + file;
    LastSepOfSuffix(dir, file);
    var head := p[..|dir| + 1];
    assert head == dir + [Sep];
    assert head[|head| - 2] == name[|name| - 1] != Sep;
    assert RStripSep(head) == dir by {
      assert head[..|head| - 1] == dir;
    }
    assert Dirname(p) == dir;
    LastSepOfSuffix(prefix, name);
    assert dir[|prefix| + 1..] == name;
  }

  /** A path without a separator has no directory part: the derived name is empty. */
  lemma BaseDirWithoutDirectory(p: string)
    requires Sep !in p
    ensures BaseDir(p) == []
  {
  }

  /** `s.split(Sep)`: the pieces between separators, empty pieces kept. */
  function Split(s: string): (parts: seq<string>)
    ensures |parts| >= 1
    ensures forall k | 0 <= k < |parts| :: Sep !in parts[k]
  {
    if s == [] then [[]]
    else
      var rest := Split(s[1..]);
      if s[0] == Sep then [[]] + rest
      else [[s[0]] + rest[0]] + rest[1..]
  }

  /** `Sep.join(parts)`, the inverse of Split. */
  function JoinParts(parts: seq<string>): string
    requires |parts| >= 1
  {
    if |parts| == 1 then parts[0] else parts[0] + [Sep] + JoinParts(parts[1..])
  }

  lemma {:induction false} SplitJoin(s: string)
    ensures JoinParts(Split(s)) == s
  {
    if s != [] {
      var rest := Split(s[1..]);
      SplitJoin(s[1..]);
      if s[0] == Sep {
        assert Split(s)[1..] == rest;
      } else {
        var parts := Split(s);
        assert parts[1..] == rest[1..];
        if |rest| > 1 {
          assert JoinParts(rest) == rest[0] + [Sep] + JoinParts(rest[1..]);
        }
      }
    }
  }

  /** Split yields at least two pieces exactly when the string has a separator. */
  lemma {:induction false} SplitHasSecond(s: string)
    ensures |Split(s)| >= 2 <==> Sep in s
  {
    if s != [] {
      SplitHasSecond(s[1..]);
      assert Sep in s <==> s[0] == Sep || Sep in s[1..];
    }
  }

  lemma {:induction false} SplitAfterComponent(a: string, b: string)
    requires Sep !in a
    ensures Split(a + [Sep] + b) == [a] + Split(b)
  {
    if a == [] {
      assert a + [Sep] + b == [Sep] + b;
      assert ([Sep] + b)[1..] == b;
    } else {
      var s := a + [Sep] + b;
      assert s[1..] == a[1..] + [Sep] + b;
      SplitAfterComponent(a[1..], b);
      assert [a[0]] + a[1..] == a;
    }
  }

  lemma {:induction false} SplitComponent(a: string)
    requires Sep !in a
    ensures Split(a) == [a]
  {
    if a != [] {
      SplitComponent(a[1..]);
      assert [a[0]] + a[1..] == a;
    }
  }

  /** `p.split(Sep)[1]`; None where indexing the second piece would raise. */
  function SecondComponent(p: string): (r: Option<string>)
    ensures r.Some? <==> Sep in p
    ensures r.Some? ==> Sep !in r.value
  {
    SplitHasSecond(p);
    var parts := Split(p);
    if |parts| >= 2 then Some(parts[1]) else None
  }

  /** The second piece of `<root>/<name>/<file>` is the name. */
  lemma SecondComponentOfImagePath(root: string, name: string, file: string)
    requires IsComponent(root) && IsComponent(name) && Sep !in file
    ensures SecondComponent(root + [Sep] + name + [Sep] + file) == Some(name)
  {
    var rest := name + [Sep] + file;
    assert root + [Sep] + name + [Sep] + file == root + [Sep] + rest;
    SplitAfterComponent(root, rest);
    SplitAfterComponent(name, file);
  }

  /**
   * On paths of the form `<root>/<name>/<file>` with a one-component root,
   * the two name derivations agree.
   */
  lemma NameDerivationsAgree(root: string, name: string, file: string)
    requires IsComponent(root) && IsComponent(name) && Sep !in file
    ensures BaseDir(root + [Sep] + name + [Sep] + file) == name
    ensures SecondComponent(root + [Sep] + name + [Sep] + file) == Some(name)
  {
    BaseDirOfImagePath(root, name, file);
    SecondComponentOfImagePath(root, name, file);
  }
}
