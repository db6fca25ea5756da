/**
 * The tally loop of the `git-stats` binary (src/main.rs): the same per-commit
 * update as src/repo.rs, but names are only umlaut-folded (no replacement
 * rules) and the driver counts are rendered as they are, without the merge.
 *
 * `replace_umlauts`, `get_navigators` and `mod coauthor` in src/main.rs are
 * copies of the functions modelled by `Repo.ReplaceUmlauts`,
 * `Repo.GetNavigators` and the `CoAuthors` module.
 */
module MainBinary {
  import opened Repo

  /** Each name folded, in order. */
  function FoldedAll(names: seq<string>): (r: seq<string>)
    ensures |r| == |names|
    decreases |names|
  {
    if names == [] then [] else FoldedAll(names[..|names| - 1]) + [Folded(names[|names| - 1])]
  }

  /** The counts after the walk has visited `commits`, skipping merge commits. */
  function Tallied(commits: seq<Commit>): Counts
    decreases |commits|
  {
    if commits == [] then map[]
    else
      var m := Tallied(commits[..|commits| - 1]);
      var c := commits[|commits| - 1];
      if c.parents == 1 then CommitUpdate(m, Folded(c.author), FoldedAll(GetNavigators(c.message))) else m
  }

  /** The `inspect` closure over the filtered walk, accumulating into one map. */
  method TallyCommits(commits: seq<Commit>) returns (counts: Counts)
    ensures counts == Tallied(commits)
  {
    counts := map[];
    for i := 0 to |commits|
      invariant counts == Tallied(commits[..i])
    {
      assert commits[..i + 1][..i] == commits[..i];
      var commit := commits[i];
      if commit.parents == 1 {
        var author := ReplaceUmlauts(commit.author);
        var navigators := GetNavigators(commit.message);
        counts := RecordCommit(counts, author, navigators);
      }
    }
    assert commits[..|commits|] == commits;
  }

  /** The body of the `inspect` closure: the driver's entry, then `han_solo` or each folded navigator. */
  method RecordCommit(m: Counts, author: string, navigators: seq<string>) returns (m': Counts)
    ensures m' == CommitUpdate(m, author, FoldedAll(navigators))
  {
    m' := m[author := Inner(m, author)];
    if navigators == [] {
      m' := Add(m', author, HanSolo, 1);
      assert m' == Add(m, author, HanSolo, 1);
    } else {
      for k := 0 to |navigators|
        invariant m' == BumpAll(m[author := Inner(m, author)], author, FoldedAll(navigators[..k]))
      {
        assert navigators[..k + 1][..k] == navigators[..k];
        var navigator := ReplaceUmlauts(navigators[k]);
        m' := Add(m', author, navigator, 1);
      }
      assert navigators[..|navigators|] == navigators;
      BumpAllFrom(m, author, FoldedAll(navigators));
    }
  }

  /** Folding every name is normalising every name with no replacement rules. */
  lemma {:induction false} FoldedAllIsNormalizedAll(names: seq<string>)
    ensures FoldedAll(names) == NormalizedAll([], names)
    decreases |names|
  {
    if names != [] {
      FoldedAllIsNormalizedAll(names[..|names| - 1]);
    }
  }

  /** The binary tallies exactly what `Repo::extract_coauthors` tallies as driver counts when it has no replacement rules. */
  lemma {:induction false} TalliedIsDriverCountsWithoutRules(commits: seq<Commit>)
    ensures Tallied(commits) == DriverCounts([], commits)
    decreases |commits|
  {
    if commits != [] {
      var c := commits[|commits| - 1];
      TalliedIsDriverCountsWithoutRules(commits[..|commits| - 1]);
      FoldedAllIsNormalizedAll(GetNavigators(c.message));
    }
  }

  /** Every count is at least 1. */
  lemma TalliedPositive(commits: seq<Commit>)
    ensures Positive(Tallied(commits))
  {
    TalliedIsDriverCountsWithoutRules(commits);
    DriverCountsPositive([], commits);
  }
}
