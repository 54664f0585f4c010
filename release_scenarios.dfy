/** Clients of `GitHelper` that show what its contracts imply for sequences
    of calls. */
module ReleaseScenarios {
  import opened Errors
  import opened Text
  import opened Versions
  import opened Repository
  import opened GitHelpers

  /** A second `get_or_create_stable` for the same version returns the same
      branch and changes nothing. */
  method StableTwice(g: GitHelper, version: Version) returns (first: Result<string>, second: Result<string>, ghost between: Repo)
    requires |version| == 3 && g.Valid()
    modifies g
    ensures first.Success? ==> second == first && g.repo == between
  {
    first := g.GetOrCreateStable(version);
    between := g.repo;
    second := g.GetOrCreateStable(version);
  }

  /** The build number is always 1, so a second `release_candidate` for the
      same version always fails: rc1 is taken, or HEAD still cannot be tagged. */
  method CandidateTwice(g: GitHelper, version: Version) returns (first: Result<string>, second: Result<string>)
    requires g.Valid()
    modifies g
    ensures second == Failure(GitError(CommandFailed))
  {
    first := g.ReleaseCandidate(version);
    second := g.ReleaseCandidate(version);
  }

  lemma RenderExamples()
    ensures Render([1, 0, 0]) == "1.0.0"
    ensures Render([2, 0, 0]) == "2.0.0"
    ensures Render([3, 0, 0]) == "3.0.0"
  {
    assert NatToString(0) == "0" && NatToString(1) == "1";
    assert NatToString(2) == "2" && NatToString(3) == "3";
  }

  /** Where the changes of a release are collected: a major release on
      master, a minor one on its major's line, a patch on its minor's line. */
  lemma StableBranchExamples()
    ensures StableBranch([2, 0, 0]) == "master"
    ensures StableBranch([1, 2, 0]) == "minor/1.x"
    ensures StableBranch([1, 2, 3]) == "minor/1.2.x"
  {
    assert NatToString(1) == "1" && NatToString(2) == "2";
  }

  /** With no tag at all, 1.0.0 may be released: its previous version is 0.0.0. */
  method FirstRelease(g: GitHelper) returns (r: Result<()>)
    requires g.Valid() && g.repo.tags == map[]
    modifies g
    ensures r == Success(())
  {
    DocstringExamples();
    RenderExamples();
    r := g.CheckVersion([1, 0, 0]);
  }

  /** With 1.0.0 released, 2.0.0 may be released even when it already has a
      candidate: the guard looks at the candidates of the next version, 3.0.0. */
  method SecondMajor(g: GitHelper, c: Commit) returns (r: Result<()>)
    requires g.Valid() && g.repo.tags == map["1.0.0" := c, "2.0.0-rc1" := c]
    modifies g
    ensures r == Success(())
  {
    DocstringExamples();
    RenderExamples();
    BumpAt([2, 0, 0], 0, true);
    BumpAt([2, 0, 0], 0, false);
    assert "3.0.0" + "-rc" == "3.0.0-rc";
    assert "2.0.0-rc1"[..8][0] == '2';
    assert !HasPrefix("3.0.0-rc", "2.0.0-rc1") && !HasPrefix("3.0.0-rc", "1.0.0");
    r := g.CheckVersion([2, 0, 0]);
  }

  /** Once 3.0.0 has a candidate, 2.0.0 can no longer be released. */
  method SecondMajorFrozen(g: GitHelper, c: Commit) returns (r: Result<()>)
    requires g.Valid() && g.repo.tags == map["1.0.0" := c, "3.0.0-rc1" := c]
    modifies g
    ensures r == Failure(GitError(NextAlreadyStarted))
  {
    DocstringExamples();
    RenderExamples();
    BumpAt([2, 0, 0], 0, true);
    BumpAt([2, 0, 0], 0, false);
    assert "3.0.0" + "-rc" == "3.0.0-rc";
    assert "3.0.0-rc1"[..8] == "3.0.0-rc";
    assert "3.0.0-rc1" in g.repo.tags && HasPrefix("3.0.0-rc", "3.0.0-rc1");
    r := g.CheckVersion([2, 0, 0]);
  }
}
