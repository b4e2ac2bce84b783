/** The two operations of java.lang.String that the validation service relies on:
    replacing every maximal run of characters from a character class by one
    character (`replaceAll("[...]+", ...)`), and `trim()`.
    The functions carry only quantifier-free contracts; what holds of every
    character of their results is stated by the lemmas beside them. */
module Strings {

  /** The shape `CollapseRuns(_, run, rep)` leaves behind: every character of `run`
      that occurs is `rep`, and no two neighbouring characters both belong to `run`. */
  ghost predicate Collapsed(s: string, run: set<char>, rep: char)
  {
    && (forall i :: 0 <= i < |s| && s[i] in run ==> s[i] == rep)
    && (forall i :: 0 <= i < |s| - 1 ==> !(s[i] in run && s[i + 1] in run))
  }

  /** `s` without its leading characters from `run`: what the greedy `+` of the
      pattern consumes after the first character of a run. */
  function SkipRun(s: string, run: set<char>): (r: string)
    ensures |r| <= |s| && r == s[|s| - |r|..]
    ensures r == [] || r[0] !in run
  {
    if s != [] && s[0] in run then SkipRun(s[1..], run) else s
  }

  /** `SkipRun` one character at a time. */
  lemma SkipRunCons(c: char, t: string, run: set<char>)
    ensures SkipRun([c] + t, run) == if c in run then SkipRun(t, run) else [c] + t
  {
    assert ([c] + t)[0] == c && ([c] + t)[1..] == t;
  }

  /** Everything `SkipRun` drops belongs to `run`. */
  lemma {:induction false} SkipRunDropsRun(s: string, run: set<char>)
    ensures forall i :: 0 <= i < |s| - |SkipRun(s, run)| ==> s[i] in run
    decreases |s|
  {
    if s != [] && s[0] in run {
      SkipRunDropsRun(s[1..], run);
    }
  }

  /** `s.replaceAll("[<run>]+", "<rep>")`: scanning from the left, each maximal run of
      characters from `run` becomes the single character `rep`; every other character
      is kept in place. */
  function CollapseRuns(s: string, run: set<char>, rep: char): (r: string)
    ensures |r| <= |s|
    ensures (r == []) == (s == [])
    ensures s != [] ==> r[0] == (if s[0] in run then rep else s[0])
    ensures s != [] && s[|s| - 1] !in run ==> r[|r| - 1] == s[|s| - 1]
    decreases |s|
  {
    if s == [] then []
    else if s[0] in run then
      SkipRunDropsRun(s[1..], run);
      [rep] + CollapseRuns(SkipRun(s[1..], run), run, rep)
    else [s[0]] + CollapseRuns(s[1..], run, rep)
  }

  /** `CollapseRuns` one character at a time: a character outside `run` is kept... */
  lemma CollapseRunsKeep(c: char, t: string, run: set<char>, rep: char)
    requires c !in run
    ensures CollapseRuns([c] + t, run, rep) == [c] + CollapseRuns(t, run, rep)
  {
    assert ([c] + t)[0] == c && ([c] + t)[1..] == t;
  }

  /** ...and a character of `run` starts a run that becomes one `rep`. */
  lemma CollapseRunsReplace(c: char, t: string, run: set<char>, rep: char)
    requires c in run
    ensures CollapseRuns([c] + t, run, rep) == [rep] + CollapseRuns(SkipRun(t, run), run, rep)
  {
    assert ([c] + t)[0] == c && ([c] + t)[1..] == t;
  }

  /** The result of `CollapseRuns` has the collapsed shape. */
  lemma {:induction false} CollapseRunsCollapsed(s: string, run: set<char>, rep: char)
    ensures Collapsed(CollapseRuns(s, run, rep), run, rep)
    decreases |s|
  {
    if s != [] {
      if s[0] in run {
        var tail := SkipRun(s[1..], run);
        CollapseRunsCollapsed(tail, run, rep);
        CollapsedCons(rep, CollapseRuns(tail, run, rep), run, rep);
      } else {
        CollapseRunsCollapsed(s[1..], run, rep);
        CollapsedCons(s[0], CollapseRuns(s[1..], run, rep), run, rep);
      }
    }
  }

  /** A character put in front of a collapsed string keeps it collapsed unless it
      starts a second run. */
  lemma CollapsedCons(h: char, t: string, run: set<char>, rep: char)
    requires Collapsed(t, run, rep)
    requires h in run ==> h == rep && (t == [] || t[0] !in run)
    ensures Collapsed([h] + t, run, rep)
  {
    var s := [h] + t;
    assert forall i :: 1 <= i < |s| ==> s[i] == t[i - 1];
  }

  /** `CollapseRuns` introduces no character other than `rep`. */
  lemma {:induction false} CollapseRunsKeepsOut(s: string, run: set<char>, rep: char, c: char)
    requires c !in s && c != rep
    ensures c !in CollapseRuns(s, run, rep)
    decreases |s|
  {
    if s != [] {
      var tail := if s[0] in run then SkipRun(s[1..], run) else s[1..];
      assert c !in tail;
      CollapseRunsKeepsOut(tail, run, rep, c);
    }
  }

  /** Every slice of a collapsed string is collapsed. */
  lemma CollapsedSlice(s: string, run: set<char>, rep: char, i: nat, j: nat)
    requires Collapsed(s, run, rep) && i <= j <= |s|
    ensures Collapsed(s[i..j], run, rep)
  {
    assert forall k :: 0 <= k < j - i ==> s[i..j][k] == s[i + k];
  }

  /** A string that already has the collapsed shape is left as it is. */
  lemma {:induction false} CollapseRunsIdentity(s: string, run: set<char>, rep: char)
    requires Collapsed(s, run, rep)
    ensures CollapseRuns(s, run, rep) == s
    decreases |s|
  {
    if s != [] {
      CollapsedSlice(s, run, rep, 1, |s|);
      if s[0] in run {
        assert SkipRun(s[1..], run) == s[1..];
      }
      CollapseRunsIdentity(s[1..], run, rep);
    }
  }

  /** `CollapseRuns` is idempotent. */
  lemma CollapseRunsIdempotent(s: string, run: set<char>, rep: char)
    ensures CollapseRuns(CollapseRuns(s, run, rep), run, rep) == CollapseRuns(s, run, rep)
  {
    CollapseRunsCollapsed(s, run, rep);
    CollapseRunsIdentity(CollapseRuns(s, run, rep), run, rep);
  }

  /** `SkipRun` stops at the first character outside `run`, so what follows such a
      character is carried along untouched. */
  lemma {:induction false} SkipRunAppend(s: string, b: string, run: set<char>)
    requires s != [] && s[|s| - 1] !in run
    ensures SkipRun(s + b, run) == SkipRun(s, run) + b
    ensures SkipRun(s, run) != [] && SkipRun(s, run)[|SkipRun(s, run)| - 1] == s[|s| - 1]
    decreases |s|
  {
    assert s + b == [s[0]] + (s[1..] + b);
    assert s == [s[0]] + s[1..];
    SkipRunCons(s[0], s[1..] + b, run);
    SkipRunCons(s[0], s[1..], run);
    if s[0] in run {
      SkipRunAppend(s[1..], b, run);
    }
  }

  /** A whole run in front of text that does not start with a character of `run`
      is skipped. */
  lemma {:induction false} SkipRunAll(r: string, b: string, run: set<char>)
    requires forall i :: 0 <= i < |r| ==> r[i] in run
    requires b == [] || b[0] !in run
    ensures SkipRun(r + b, run) == b
    decreases |r|
  {
    if r == [] {
      assert r + b == b;
    } else {
      assert r + b == [r[0]] + (r[1..] + b);
      SkipRunCons(r[0], r[1..] + b, run);
      SkipRunAll(r[1..], b, run);
    }
  }

  /** Runs are replaced piecewise on either side of a boundary that no run crosses. */
  lemma {:induction false} CollapseRunsAppend(a: string, b: string, run: set<char>, rep: char)
    requires a == [] || a[|a| - 1] !in run
    ensures CollapseRuns(a + b, run, rep) == CollapseRuns(a, run, rep) + CollapseRuns(b, run, rep)
    decreases |a|
  {
    if a == [] {
      assert a + b == b;
    } else {
      assert a + b == [a[0]] + (a[1..] + b);
      assert a == [a[0]] + a[1..];
      if a[0] !in run {
        CollapseRunsKeep(a[0], a[1..] + b, run, rep);
        CollapseRunsKeep(a[0], a[1..], run, rep);
        CollapseRunsAppend(a[1..], b, run, rep);
        ConcatAssoc([a[0]], CollapseRuns(a[1..], run, rep), CollapseRuns(b, run, rep));
      } else {
        var rest := SkipRun(a[1..], run);
        SkipRunAppend(a[1..], b, run);
        CollapseRunsReplace(a[0], a[1..] + b, run, rep);
        CollapseRunsReplace(a[0], a[1..], run, rep);
        CollapseRunsAppend(rest, b, run, rep);
        ConcatAssoc([rep], CollapseRuns(rest, run, rep), CollapseRuns(b, run, rep));
      }
    }
  }

  /** Each maximal run becomes exactly one `rep`: a non-empty run of characters from
      `run`, after text that does not end and before text that does not start with
      one, is replaced by a single `rep`, and the text on either side is replaced on
      its own. Together with `CollapseRunsAppend` this fixes `CollapseRuns` on
      every input. */
  lemma CollapseRunsRun(a: string, r: string, b: string, run: set<char>, rep: char)
    requires a == [] || a[|a| - 1] !in run
    requires r != [] && forall i :: 0 <= i < |r| ==> r[i] in run
    requires b == [] || b[0] !in run
    ensures CollapseRuns(a + r + b, run, rep) ==
              CollapseRuns(a, run, rep) + [rep] + CollapseRuns(b, run, rep)
  {
    ConcatAssoc(a, r, b);
    CollapseRunsLeadingRun(r, b, run, rep);
    CollapseRunsAppend(a, r + b, run, rep);
    ConcatAssoc(CollapseRuns(a, run, rep), [rep], CollapseRuns(b, run, rep));
  }

  lemma ConcatAssoc(a: string, b: string, c: string)
    ensures a + b + c == a + (b + c)
  {
  }

  /** A run at the front becomes one `rep`. */
  lemma CollapseRunsLeadingRun(r: string, b: string, run: set<char>, rep: char)
    requires r != [] && forall i :: 0 <= i < |r| ==> r[i] in run
    requires b == [] || b[0] !in run
    ensures CollapseRuns(r + b, run, rep) == [rep] + CollapseRuns(b, run, rep)
  {
    var t := r[1..] + b;
    assert r + b == [r[0]] + t;
    CollapseRunsReplace(r[0], t, run, rep);
    SkipRunAll(r[1..], b, run);
  }

  /** `s` without its leading characters up to U+0020: the first loop of `trim()`. */
  function TrimStart(s: string): string
  {
    if s != [] && s[0] <= ' ' then TrimStart(s[1..]) else s
  }

  /** `TrimStart` drops a prefix of characters up to U+0020 and stops at the first
      character above it. */
  lemma {:induction false} TrimStartSpec(s: string)
    ensures |TrimStart(s)| <= |s| && TrimStart(s) == s[|s| - |TrimStart(s)|..]
    ensures forall i :: 0 <= i < |s| - |TrimStart(s)| ==> s[i] <= ' '
    ensures TrimStart(s) == [] || TrimStart(s)[0] > ' '
    decreases |s|
  {
    if s != [] && s[0] <= ' ' {
      TrimStartSpec(s[1..]);
    }
  }

  /** `s` without its trailing characters up to U+0020: the second loop of `trim()`. */
  function TrimEnd(s: string): string
  {
    if s != [] && s[|s| - 1] <= ' ' then TrimEnd(s[..|s| - 1]) else s
  }

  /** `TrimEnd` drops a suffix of characters up to U+0020 and stops at the last
      character above it. */
  lemma {:induction false} TrimEndSpec(s: string)
    ensures |TrimEnd(s)| <= |s| && TrimEnd(s) == s[..|TrimEnd(s)|]
    ensures forall i :: |TrimEnd(s)| <= i < |s| ==> s[i] <= ' '
    ensures TrimEnd(s) == [] || TrimEnd(s)[|TrimEnd(s)| - 1] > ' '
    decreases |s|
  {
    if s != [] && s[|s| - 1] <= ' ' {
      TrimEndSpec(s[..|s| - 1]);
    }
  }

  /** Java's `String.trim()`: drops every leading and trailing character whose code is
      at most U+0020 (space and all control characters, not only blanks). */
  function Trim(s: string): (r: string)
    ensures |r| <= |s|
    ensures r == [] || (r[0] > ' ' && r[|r| - 1] > ' ')
  {
    TrimStartSpec(s);
    TrimEndSpec(TrimStart(s));
    TrimEnd(TrimStart(s))
  }

  /** Trimming keeps a collapsed string collapsed. */
  lemma TrimCollapsed(s: string, run: set<char>, rep: char)
    requires Collapsed(s, run, rep)
    ensures Collapsed(Trim(s), run, rep)
  {
    var t := TrimStart(s);
    TrimStartSpec(s);
    TrimEndSpec(t);
    CollapsedSlice(s, run, rep, |s| - |t|, |s|);
    CollapsedSlice(t, run, rep, 0, |TrimEnd(t)|);
  }

  /** A string that starts and ends above U+0020 is its own trim. */
  lemma TrimIdentity(s: string)
    requires s == [] || (s[0] > ' ' && s[|s| - 1] > ' ')
    ensures Trim(s) == s
  {
    assert TrimStart(s) == s;
    assert TrimEnd(s) == s;
  }

  /** The characters of `s` above U+0020, in order: what neither trimming nor
      collapsing blank runs can remove. */
  function Visible(s: string): (r: string)
    ensures |r| <= |s|
  {
    if s == [] then [] else (if s[0] > ' ' then [s[0]] else []) + Visible(s[1..])
  }

  lemma {:induction false} VisibleAppend(a: string, b: string)
    ensures Visible(a + b) == Visible(a) + Visible(b)
    decreases |a|
  {
    if a != [] {
      assert (a + b)[0] == a[0] && (a + b)[1..] == a[1..] + b;
      VisibleAppend(a[1..], b);
    } else {
      assert a + b == b;
    }
  }

  lemma {:induction false} VisibleBlank(s: string)
    requires forall i :: 0 <= i < |s| ==> s[i] <= ' '
    ensures Visible(s) == []
    decreases |s|
  {
    if s != [] {
      VisibleBlank(s[1..]);
    }
  }

  lemma TrimStartKeepsVisible(s: string)
    ensures Visible(TrimStart(s)) == Visible(s)
  {
    var t := TrimStart(s);
    TrimStartSpec(s);
    var dropped := s[..|s| - |t|];
    assert s == dropped + t;
    VisibleAppend(dropped, t);
    VisibleBlank(dropped);
  }

  lemma TrimEndKeepsVisible(s: string)
    ensures Visible(TrimEnd(s)) == Visible(s)
  {
    var r := TrimEnd(s);
    TrimEndSpec(s);
    var dropped := s[|r|..];
    assert s == r + dropped;
    VisibleAppend(r, dropped);
    VisibleBlank(dropped);
  }

  /** `trim()` removes no character above U+0020. */
  lemma TrimKeepsVisible(s: string)
    ensures Visible(Trim(s)) == Visible(s)
  {
    TrimStartKeepsVisible(s);
    TrimEndKeepsVisible(TrimStart(s));
  }

  /** Skipping a run of characters up to U+0020 removes no visible character. */
  lemma {:induction false} SkipRunKeepsVisible(s: string, run: set<char>)
    requires forall c :: c in run ==> c <= ' '
    ensures Visible(SkipRun(s, run)) == Visible(s)
    decreases |s|
  {
    if s != [] && s[0] in run {
      SkipRunKeepsVisible(s[1..], run);
    }
  }

  /** Collapsing runs of characters up to U+0020 into one such character removes
      no character above U+0020 and reorders none. */
  lemma {:induction false} CollapseKeepsVisible(s: string, run: set<char>, rep: char)
    requires forall c :: c in run ==> c <= ' '
    requires rep <= ' '
    ensures Visible(CollapseRuns(s, run, rep)) == Visible(s)
    decreases |s|
  {
    if s != [] {
      var head := if s[0] in run then rep else s[0];
      var tail := if s[0] in run then SkipRun(s[1..], run) else s[1..];
      CollapseKeepsVisible(tail, run, rep);
      var t := CollapseRuns(tail, run, rep);
      assert CollapseRuns(s, run, rep) == [head] + t;
      assert ([head] + t)[0] == head && ([head] + t)[1..] == t;
      if s[0] in run {
        SkipRunKeepsVisible(s[1..], run);
      }
    }
  }
}
