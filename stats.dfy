/**
 * `git_stats`: commit and line counts summed over the repositories in the projects
 * directory. Each repository's two `git` probes are inputs here; a probe that failed
 * (the subprocess raised, its output was not a number) is `None` and adds nothing.
 */
module Stats {
  import opened Options

  /**
   * One entry of the projects directory: whether it is a directory, whether it holds
   * `.git`, and what `git rev-list --count HEAD` and the `wc -l` pipeline yielded.
   */
  datatype RepoProbe = RepoProbe(isDir: bool, hasGit: bool, commits: Option<nat>, loc: Option<nat>)

  /** The dictionary `_cached_stats` serves. */
  datatype Stats = Stats(commits: nat, loc: nat, projects: nat)

  /** The loop only looks at directories that hold `.git`. */
  predicate IsRepo(p: RepoProbe) {
    p.isDir && p.hasGit
  }

  /** What one entry adds to `total_commits`. */
  function CommitsOf(p: RepoProbe): (r: nat)
    ensures r > 0 ==> IsRepo(p) && p.commits == Some(r)
    ensures IsRepo(p) && p.commits.Some? ==> r == p.commits.value
  {
    if IsRepo(p) && p.commits.Some? then p.commits.value else 0
  }

  /** What one entry adds to `total_loc`. */
  function LocOf(p: RepoProbe): (r: nat)
    ensures r > 0 ==> IsRepo(p) && p.loc == Some(r)
    ensures IsRepo(p) && p.loc.Some? ==> r == p.loc.value
  {
    if IsRepo(p) && p.loc.Some? then p.loc.value else 0
  }

  function TotalCommits(ps: seq<RepoProbe>): nat {
    if ps == [] then 0 else TotalCommits(ps[..|ps| - 1]) + CommitsOf(ps[|ps| - 1])
  }

  function TotalLoc(ps: seq<RepoProbe>): nat {
    if ps == [] then 0 else TotalLoc(ps[..|ps| - 1]) + LocOf(ps[|ps| - 1])
  }

  /**
   * The summing loop of `git_stats` over the directory's entries, `None` when the
   * projects directory does not exist.
   */
  method GitStats(entries: Option<seq<RepoProbe>>) returns (commits: nat, loc: nat)
    ensures entries.None? ==> commits == 0 && loc == 0
    ensures entries.Some? ==> commits == TotalCommits(entries.value) && loc == TotalLoc(entries.value)
  {
    commits, loc := 0, 0;
    if entries.None? {
      return;
    }
    var ps := entries.value;
    var i := 0;
    while i < |ps|
      invariant 0 <= i <= |ps|
      invariant commits == TotalCommits(ps[..i])
      invariant loc == TotalLoc(ps[..i])
    {
      assert ps[..i + 1][..i] == ps[..i];
      var d := ps[i];
      i := i + 1;
      if !d.isDir || !d.hasGit {
        continue;
      }
      if d.commits.Some? {
        commits := commits + d.commits.value;
      }
      if d.loc.Some? {
        loc := loc + d.loc.value;
      }
    }
    assert ps[..i] == ps;
  }

  // ---------------------------------------------------------------- what the sums promise

  /** Summing splits over consecutive runs of entries. */
  lemma {:induction false} TotalsConcat(a: seq<RepoProbe>, b: seq<RepoProbe>)
    ensures TotalCommits(a + b) == TotalCommits(a) + TotalCommits(b)
    ensures TotalLoc(a + b) == TotalLoc(a) + TotalLoc(b)
  {
    if b == [] {
      assert a + b == a;
    } else {
      var b' := b[..|b| - 1];
      assert (a + b)[..|a + b| - 1] == a + b';
      assert (a + b)[|a + b| - 1] == b[|b| - 1];
      TotalsConcat(a, b');
    }
  }

  /** An entry that is not a repository, or whose probes both failed, changes neither total. */
  lemma SkippedEntry(a: seq<RepoProbe>, p: RepoProbe, b: seq<RepoProbe>)
    requires !IsRepo(p) || (p.commits.None? && p.loc.None?)
    ensures TotalCommits(a + [p] + b) == TotalCommits(a + b)
    ensures TotalLoc(a + [p] + b) == TotalLoc(a + b)
  {
    TotalsConcat(a + [p], b);
    TotalsConcat(a, b);
    assert (a + [p])[..|a + [p]| - 1] == a;
  }

  /** The totals do not depend on the order in which `iterdir` lists the entries. */
  lemma {:induction false} TotalsPermutation(a: seq<RepoProbe>, b: seq<RepoProbe>)
    requires multiset(a) == multiset(b)
    ensures TotalCommits(a) == TotalCommits(b)
    ensures TotalLoc(a) == TotalLoc(b)
    decreases |a|
  {
    if a != [] {
      var x := a[|a| - 1];
      var a' := a[..|a| - 1];
      assert a == a' + [x];
      assert x in multiset(b);
      var j :| 0 <= j < |b| && b[j] == x;
      var b' := b[..j] + b[j + 1..];
      assert b == b[..j] + [x] + b[j + 1..];
      assert multiset(a) == multiset(a') + multiset{x};
      assert multiset(b) == multiset(b[..j]) + multiset{x} + multiset(b[j + 1..]);
      assert multiset(b') == multiset(b[..j]) + multiset(b[j + 1..]);
      assert multiset(a') == multiset(a) - multiset{x};
      assert multiset(b') == multiset(b) - multiset{x};
      TotalsPermutation(a', b');
      TotalsConcat(b[..j] + [x], b[j + 1..]);
      TotalsConcat(b[..j], [x]);
      TotalsConcat(b[..j], b[j + 1..]);
      assert TotalCommits([x]) == CommitsOf(x) && TotalLoc([x]) == LocOf(x) by {
        assert [x][..0] == [];
      }
    }
  }

  /** Every repository whose probe succeeded contributes its whole count: the sum bounds each one. */
  lemma {:induction false} EachCountIncluded(ps: seq<RepoProbe>, k: nat)
    requires k < |ps| && IsRepo(ps[k])
    ensures ps[k].commits.Some? ==> TotalCommits(ps) >= ps[k].commits.value
    ensures ps[k].loc.Some? ==> TotalLoc(ps) >= ps[k].loc.value
  {
    assert ps == ps[..k] + [ps[k]] + ps[k + 1..];
    TotalsConcat(ps[..k] + [ps[k]], ps[k + 1..]);
    TotalsConcat(ps[..k], [ps[k]]);
    assert [ps[k]][..0] == [];
  }

  /** With no repository whose probe succeeded, both totals are 0. */
  lemma {:induction false} NothingCounted(ps: seq<RepoProbe>)
    requires forall k | 0 <= k < |ps| :: !IsRepo(ps[k]) || (ps[k].commits.None? && ps[k].loc.None?)
    ensures TotalCommits(ps) == 0 && TotalLoc(ps) == 0
  {
    if ps != [] {
      var init := ps[..|ps| - 1];
      assert forall k | 0 <= k < |init| :: init[k] == ps[k];
      NothingCounted(init);
    }
  }

  /** No successful count: no repository among the entries had a probe that succeeded. */
  predicate NoCount(ps: seq<RepoProbe>) {
    forall k | 0 <= k < |ps| :: !IsRepo(ps[k]) || (ps[k].commits.None? && ps[k].loc.None?)
  }

  /** `EachCountIncluded` for every entry at once, and `NothingCounted` as an implication. */
  lemma TotalsBounds(ps: seq<RepoProbe>)
    ensures forall k | 0 <= k < |ps| && IsRepo(ps[k]) ::
              && (ps[k].commits.Some? ==> TotalCommits(ps) >= ps[k].commits.value)
              && (ps[k].loc.Some? ==> TotalLoc(ps) >= ps[k].loc.value)
    ensures NoCount(ps) ==> TotalCommits(ps) == 0 && TotalLoc(ps) == 0
  {
    forall k | 0 <= k < |ps| && IsRepo(ps[k])
      ensures && (ps[k].commits.Some? ==> TotalCommits(ps) >= ps[k].commits.value)
              && (ps[k].loc.Some? ==> TotalLoc(ps) >= ps[k].loc.value)
    {
      EachCountIncluded(ps, k);
    }
    if NoCount(ps) {
      NothingCounted(ps);
    }
  }
}
