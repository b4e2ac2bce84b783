/** The part of java.nio.file that the service uses, on a Unix-like file system:
    `Paths.get(first, more...)`, `Path.toString()` and `Path.isAbsolute()`. */
module UnixPaths {
  import opened Wrappers
  import opened Strings

  const Separator: char := '/'

  /** `Path.isAbsolute()`: the path starts at the root. */
  predicate IsAbsolute(p: string)
  {
    |p| > 0 && p[0] == Separator
  }

  /** The form `Path.toString()` returns: no repeated separator, and no trailing
      separator except in the root path "/" itself. */
  ghost predicate IsNormal(p: string)
  {
    Collapsed(p, {Separator}, Separator) && (|p| > 1 ==> p[|p| - 1] != Separator)
  }

  /** The normalisation of a path string that contains no NUL: each run of
      separators becomes one, and a trailing separator is dropped unless the whole
      path is the root. */
  function Normalize(p: string): (r: string)
    ensures |r| <= |p|
    ensures (r == []) == (p == [])
    ensures IsAbsolute(r) == IsAbsolute(p)
    ensures p != [] && p[|p| - 1] != Separator ==> r[|r| - 1] == p[|p| - 1]
  {
    var c := CollapseRuns(p, {Separator}, Separator);
    if |c| > 1 && c[|c| - 1] == Separator then c[..|c| - 1] else c
  }

  /** `Normalize` yields a path in normal form, with no character that was not
      already in its input (a NUL in particular). */
  lemma NormalizeIsNormal(p: string)
    ensures IsNormal(Normalize(p))
    ensures '\0' !in p ==> '\0' !in Normalize(p)
  {
    var c := CollapseRuns(p, {Separator}, Separator);
    CollapseRunsCollapsed(p, {Separator}, Separator);
    if '\0' !in p {
      CollapseRunsKeepsOut(p, {Separator}, Separator, '\0');
    }
    if |c| > 1 && c[|c| - 1] == Separator {
      CollapsedSlice(c, {Separator}, Separator, 0, |c| - 1);
      assert c[|c| - 2] != Separator;
    }
  }

  /** A path already in normal form is its own normal form. */
  lemma NormalizeNormal(p: string)
    requires IsNormal(p)
    ensures Normalize(p) == p
  {
    CollapseRunsIdentity(p, {Separator}, Separator);
  }

  /** `Normalize` is idempotent. */
  lemma NormalizeIdempotent(p: string)
    ensures Normalize(Normalize(p)) == Normalize(p)
  {
    NormalizeIsNormal(p);
    NormalizeNormal(Normalize(p));
  }

  /** A path without separators is its own normal form. */
  lemma NormalizeNoSeparator(p: string)
    requires Separator !in p
    ensures Normalize(p) == p
  {
    assert forall i :: 0 <= i < |p| ==> p[i] != Separator;
    CollapseRunsIdentity(p, {Separator}, Separator);
  }

  /** Each run of separators between two parts of a path becomes exactly one
      separator, and each part is normalised on its own: no character other than a
      separator is dropped, added or moved. */
  lemma NormalizeSplit(a: string, r: string, b: string)
    requires a != [] && a[|a| - 1] != Separator
    requires r != [] && forall i :: 0 <= i < |r| ==> r[i] == Separator
    requires b != [] && b[0] != Separator
    ensures Normalize(a + r + b) == Normalize(a) + [Separator] + Normalize(b)
  {
    CollapseRunsRun(a, r, b, {Separator}, Separator);
  }

  /** Separators after the last part of a path are dropped. */
  lemma NormalizeTrailing(a: string, r: string)
    requires a != [] && a[|a| - 1] != Separator
    requires forall i :: 0 <= i < |r| ==> r[i] == Separator
    ensures Normalize(a + r) == Normalize(a)
  {
    if r == [] {
      assert a + r == a;
    } else {
      assert a + r == a + r + [];
      CollapseRunsRun(a, r, [], {Separator}, Separator);
      var ca := CollapseRuns(a, {Separator}, Separator);
      assert ca[|ca| - 1] == a[|a| - 1];
      assert ca + [Separator] + CollapseRuns([], {Separator}, Separator) == ca + [Separator];
    }
  }

  /** A path made of separators only is the root. */
  lemma NormalizeRoot(r: string)
    requires r != [] && forall i :: 0 <= i < |r| ==> r[i] == Separator
    ensures Normalize(r) == [Separator]
  {
    assert r + [] == r;
    CollapseRunsLeadingRun(r, [], {Separator}, Separator);
  }

  /** Separators at the front of a path become the one root separator. */
  lemma NormalizeLeading(r: string, b: string)
    requires r != [] && forall i :: 0 <= i < |r| ==> r[i] == Separator
    requires b != [] && b[0] != Separator
    ensures Normalize(r + b) == [Separator] + Normalize(b)
  {
    CollapseRunsLeadingRun(r, b, {Separator}, Separator);
  }

  /** The index of the last character of `p` that is not a separator, or -1. */
  function LastNonSeparator(p: string): (k: int)
    ensures -1 <= k < |p|
    ensures k >= 0 ==> p[k] != Separator
    ensures forall j :: k < j < |p| ==> p[j] == Separator
  {
    if p == [] then -1
    else if p[|p| - 1] != Separator then |p| - 1
    else
      var k := LastNonSeparator(p[..|p| - 1]);
      assert forall j :: k < j < |p| - 1 ==> p[..|p| - 1][j] == p[j];
      k
  }

  /** `Paths.get(dir, name)` for a non-empty directory and a name without separators:
      the name under the normalised directory, or under the root when the directory
      is made of separators only. */
  lemma NormalizeDirName(dir: string, name: string)
    requires dir != [] && name != [] && Separator !in name
    ensures Normalize(dir) == [Separator] ==> Normalize(dir + [Separator] + name) == [Separator] + name
    ensures Normalize(dir) != [Separator] ==>
              Normalize(dir + [Separator] + name) == Normalize(dir) + [Separator] + name
  {
    NormalizeNoSeparator(name);
    var k := LastNonSeparator(dir);
    if k < 0 {
      NormalizeRoot(dir);
      assert dir + [Separator] + name == (dir + [Separator]) + name;
      NormalizeLeading(dir + [Separator], name);
    } else {
      var head, tail := dir[..k + 1], dir[k + 1..];
      assert dir == head + tail;
      NormalizeTrailing(head, tail);
      assert dir + [Separator] + name == head + (tail + [Separator]) + name;
      NormalizeSplit(head, tail + [Separator], name);
      assert Normalize(head)[|Normalize(head)| - 1] == head[k];
    }
  }

  /** `Paths.get(p).toString()`: the normal form of `p`, or None where Java throws
      InvalidPathException because `p` contains a NUL character. */
  function Get(p: string): (r: Option<string>)
    ensures r.None? <==> '\0' in p
  {
    if '\0' in p then None else Some(Normalize(p))
  }

  /** `Paths.get(first, more).toString()`: an empty `more` adds nothing; otherwise it
      is appended after one separator (none when `first` is empty), and the whole
      string is then normalised and checked as by `Get`. */
  function Join(first: string, more: string): (r: Option<string>)
    ensures r.None? <==> '\0' in first || '\0' in more
  {
    var joined := if more == [] then first else if first == [] then more else first + [Separator] + more;
    assert '\0' in joined <==> '\0' in first || '\0' in more;
    Get(joined)
  }

  /** Joining a normal directory path that does not end in a separator with a
      normal, non-empty relative path adds exactly one separator and needs no further
      normalisation. */
  lemma {:induction false} JoinNormal(dir: string, rel: string)
    requires IsNormal(dir) && dir != [] && dir[|dir| - 1] != Separator
    requires IsNormal(rel) && rel != [] && !IsAbsolute(rel)
    ensures IsNormal(dir + [Separator] + rel)
  {
    var j := dir + [Separator] + rel;
    forall i | 0 <= i < |j| - 1
      ensures !(j[i] in {Separator} && j[i + 1] in {Separator})
    {
      if i < |dir| - 1 {
        assert j[i] == dir[i] && j[i + 1] == dir[i + 1];
      } else if i == |dir| - 1 {
        assert j[i] == dir[|dir| - 1];
      } else if i == |dir| {
        assert j[i + 1] == rel[0];
      } else {
        assert j[i] == rel[i - |dir| - 1] && j[i + 1] == rel[i - |dir|];
      }
    }
    assert j[|j| - 1] == rel[|rel| - 1];
  }
}
