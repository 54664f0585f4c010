/** `GitHelper` (bamboo/git.py): tag naming, build numbers, the release-order
    guard, the stable branch and the release-candidate/release lifecycle, with
    `self.git` acting on an in-memory repository. */
module GitHelpers {
  import opened Errors
  import opened Text
  import opened Versions
  import opened Repository

  /** `_rc_tag`: the tag of build `build` of `version`; with `build` = "*" it is
      the pattern of every candidate of that version. */
  function RcTag(version: string, build: string): (t: string)
    ensures NamesCandidate(t, version, build)
    ensures '-' !in version ==>
      forall v: string, b: string :: '-' !in v && NamesCandidate(t, v, b) ==> v == version && b == build
  {
    if '-' in version then version + "-rc" + build
    else
      CandidateSplit(version, build);
      version + "-rc" + build
  }

  /** `t` is the candidate tag of build `b` of version `v`. */
  predicate NamesCandidate(t: string, v: string, b: string) {
    t == v + "-rc" + b
  }

  /** A name `version-rc{build}` splits back at its first `-`. */
  lemma CandidateSplit(version: string, build: string)
    requires '-' !in version
    ensures forall v: string, b: string ::
      '-' !in v && NamesCandidate(version + "-rc" + build, v, b) ==> v == version && b == build
  {
    forall v: string, b: string | '-' !in v && NamesCandidate(version + "-rc" + build, v, b)
      ensures v == version && b == build
    {
      assert v + "-rc" + b == v + ['-'] + ("rc" + b);
      assert version + "-rc" + build == version + ['-'] + ("rc" + build);
      SplitAtFirst(v, "rc" + b, version, "rc" + build, '-');
      assert b == ("rc" + b)[2..] && build == ("rc" + build)[2..];
    }
  }

  /** `_release_tag`: a final release is tagged with the bare version. */
  function ReleaseTag(version: string): (t: string)
    ensures '-' !in version ==> forall w: string :: !HasPrefix(w + "-rc", t)
  {
    if '-' in version then version
    else
      NoCandidatePrefix(version);
      version
  }

  /** Text without `-` starts with no candidate prefix `w-rc`. */
  lemma NoCandidatePrefix(s: string)
    requires '-' !in s
    ensures forall w: string :: !HasPrefix(w + "-rc", s)
  {
    forall w: string ensures !HasPrefix(w + "-rc", s) {
      assert (w + "-rc")[|w|] == '-';
    }
  }

  lemma RenderHasNoSpecials(v: Version)
    ensures '*' !in Render(v) && '-' !in Render(v)
  {
  }

  /** Every candidate tag of a version is listed by that version's candidate pattern. */
  lemma RcTagMatchesPattern(v: Version, n: nat)
    ensures Glob(RcTag(Render(v), "*"), RcTag(Render(v), NatToString(n)))
  {
    var p := Render(v) + "-rc";
    RenderHasNoSpecials(v);
    GlobPrefix(p, p + NatToString(n));
    assert (p + NatToString(n))[..|p|] == p;
  }

  /** Distinct (version, build) pairs give distinct candidate tags. */
  lemma RcTagInjective(a: Version, m: nat, b: Version, n: nat)
    requires RcTag(Render(a), NatToString(m)) == RcTag(Render(b), NatToString(n))
    ensures a == b && m == n
  {
    RenderHasNoSpecials(a);
    RenderHasNoSpecials(b);
    assert NamesCandidate(RcTag(Render(a), NatToString(m)), Render(b), NatToString(n));
    RenderInjective(a, b);
    NatToStringInjective(m, n);
  }

  /** A release tag is never taken for a candidate of any version. */
  lemma ReleaseTagIsNoCandidate(v: Version, w: Version)
    ensures !Glob(RcTag(Render(w), "*"), ReleaseTag(Render(v)))
  {
    RenderHasNoSpecials(v);
    RenderHasNoSpecials(w);
    var p := Render(w) + "-rc";
    GlobPrefix(p, Render(v));
    assert p[|Render(w)|] == '-';
  }

  /** `t.replace(pattern, "")` with the candidate pattern of `version`,
      asterisk included. */
  function Remainder(t: string, version: string): (r: string)
    ensures |r| <= |t|
    ensures '*' !in t ==> r == t
  {
    var p := RcTag(version, "*");
    if '*' in t then RemoveAll(t, p)
    else
      assert p[|version| + 3] == '*';
      RemoveAllAbsent(t, p, '*');
      RemoveAll(t, p)
  }

  /** The number computation of `get_current_build_number` over the tags that
      `tag -l` listed: one more than the largest all-digit remainder, or 1. */
  method NextBuildNumber(version: string, found: set<string>) returns (n: nat)
    ensures n >= 1
    ensures forall t :: t in found && IsDigits(Remainder(t, version)) ==>
      DigitsValue(Remainder(t, version)) < n
    ensures n == 1 || (exists t :: t in found && IsDigits(Remainder(t, version)) &&
                                   n == DigitsValue(Remainder(t, version)) + 1)
  {
    n := 1;
    var rest := found;
    while rest != {}
      invariant rest <= found
      invariant n >= 1
      invariant forall t :: t in found - rest && IsDigits(Remainder(t, version)) ==>
        DigitsValue(Remainder(t, version)) < n
      invariant n == 1 || (exists t :: t in found && IsDigits(Remainder(t, version)) &&
                                     n == DigitsValue(Remainder(t, version)) + 1)
      decreases rest
    {
      var t :| t in rest;
      var remainder := Remainder(t, version);
      if IsDigits(remainder) && DigitsValue(remainder) + 1 > n {
        n := DigitsValue(remainder) + 1;
      }
      rest := rest - {t};
    }
  }

  /** A listed candidate tag whose name has no `*` keeps its whole name after
      the replace, and a name holding `-` is not all digits: it yields no number. */
  lemma NoCandidateYieldsNumber(v: Version, found: set<string>)
    requires forall t :: t in found ==> Glob(RcTag(Render(v), "*"), t) && '*' !in t
    ensures forall t :: t in found ==> !IsDigits(Remainder(t, Render(v)))
  {
    var p := Render(v) + "-rc";
    RenderHasNoSpecials(v);
    forall t | t in found
      ensures !IsDigits(Remainder(t, Render(v)))
    {
      GlobPrefix(p, t);
      assert t[|Render(v)|] == p[|Render(v)|] == '-';
    }
  }

  /** The candidates rc1 and rc3 of 1.0.0 yield no number either, so the
      next build number computed for them is 1, not 4. */
  lemma CandidatesOneAndThree()
    ensures !IsDigits(Remainder("1.0.0-rc1", "1.0.0"))
    ensures !IsDigits(Remainder("1.0.0-rc3", "1.0.0"))
  {
    var p := RcTag("1.0.0", "*");
    assert p[8] == '*';
    RemoveAllAbsent("1.0.0-rc1", p, '*');
    RemoveAllAbsent("1.0.0-rc3", p, '*');
    assert "1.0.0-rc1"[1] == '.' && "1.0.0-rc3"[1] == '.';
  }

  /** The replace does strip the pattern text, asterisk included, from a name
      that literally holds it: `1.0.0-rc*5` leaves the number 5. */
  lemma LiteralPatternYieldsNumber()
    ensures Remainder("1.0.0-rc*5", "1.0.0") == "5"
    ensures IsDigits("5") && DigitsValue("5") == 5
  {
    var p := RcTag("1.0.0", "*");
    assert "1.0.0-rc*5"[..|p|] == p;
    assert "1.0.0-rc*5"[|p|..] == "5";
  }

  /** The stable branch a version's changes are collected on. Every name is
      one git accepts and holds no wildcard; only the versions (x, 0, 0) land
      on master. */
  function StableBranch(version: Version): (b: string)
    requires |version| == 3
    ensures ValidRefName(b) && '*' !in b
    ensures b == "master" <==> version[1] == 0 && version[2] == 0
  {
    assert version[1..] == [version[1], version[2]];
    if version[1..] == [0, 0] then "master"
    else
      var major := NatToString(version[0]);
      var b := if version[2] == 0 then "minor/" + major + ".x"
               else "minor/" + major + "." + NatToString(version[1]) + ".x";
      BranchNameValid(b);
      b
  }

  /** The next version is built on the same stable branch as this one. */
  lemma NextSharesStableBranch(version: Version)
    requires |version| == 3 && Less(Zero, version)
    ensures StableBranch(Bump(version, false)) == StableBranch(version)
  {
    PositiveIffNonZero(version);
    var i := LowestNonZeroExists(version);
    BumpAt(version, i, false);
  }

  /** A branch is created from the release tag of the previous version, which
      lies on the same stable branch unless it starts a new line. */
  lemma PreviousSharesStableBranch(version: Version, i: nat)
    requires |version| == 3 && IsLowestNonZero(version, i) && version[i] > 1
    ensures StableBranch(Bump(version, true)) == StableBranch(version)
  {
    BumpAt(version, i, true);
  }

  /** A name made of the letters of `minor/`, `.`, `x` and digits, starting
      with `m`, is a valid ref name without a wildcard. */
  lemma BranchNameValid(b: string)
    requires |b| > 0 && b[0] == 'm'
    requires forall k :: 0 <= k < |b| ==> IsDigitChar(b[k]) || b[k] in "minor/.x"
    ensures ValidRefName(b) && '*' !in b && b != "master"
  {
    assert b != "master" by {
      if |b| == 6 { assert "master"[1] == 'a'; }
    }
  }

  /** Commands `merge_tasks` issues for one task. */
  function TaskCommands(taskKey: string, key: string, stableBranch: string): (cmds: seq<Command>)
    ensures |cmds| == 3 && forall k :: 0 <= k < 3 ==> TouchesNoTag(cmds[k])
  {
    [["checkout", key],
     ["checkout", stableBranch],
     ["merge", "--no-ff", key, "-m", taskKey + " merge tasks " + key]]
  }

  /** Every command `merge_tasks` would issue if none failed, task after task. */
  function MergeScript(taskKey: string, tasks: seq<string>, stableBranch: string): (script: seq<Command>)
    ensures |script| == 3 * |tasks|
    ensures forall i :: 0 <= i < |tasks| ==>
      script[3 * i..3 * i + 3] == TaskCommands(taskKey, tasks[i], stableBranch)
    decreases |tasks|
  {
    if tasks == [] then []
    else
      var rest := MergeScript(taskKey, tasks[1..], stableBranch);
      var script := TaskCommands(taskKey, tasks[0], stableBranch) + rest;
      assert forall i :: 1 <= i < |tasks| ==> script[3 * i..3 * i + 3] == rest[3 * (i - 1)..3 * (i - 1) + 3];
      script
  }

  /** The merge script from task `i` on runs the commands of task `i` and,
      only when all of them succeeded, the script of the tasks after it. */
  lemma MergeScriptFrom(r: Repo, taskKey: string, tasks: seq<string>, i: nat, stableBranch: string)
    requires i < |tasks|
    ensures
      var part := Steps(r, TaskCommands(taskKey, tasks[i], stableBranch));
      Steps(r, MergeScript(taskKey, tasks[i..], stableBranch)) ==
        if part.ok then After(part.issued, Steps(part.repo, MergeScript(taskKey, tasks[i + 1..], stableBranch)))
        else part
  {
    var cmds := TaskCommands(taskKey, tasks[i], stableBranch);
    var rest := MergeScript(taskKey, tasks[i + 1..], stableBranch);
    assert tasks[i..][0] == tasks[i] && tasks[i..][1..] == tasks[i + 1..];
    assert MergeScript(taskKey, tasks[i..], stableBranch) == cmds + rest;
    StepsConcat(r, cmds, rest);
  }

  lemma AppendAssociative<T>(a: seq<T>, b: seq<T>, c: seq<T>)
    ensures a + (b + c) == a + b + c
  {
  }

  /** Merging tasks never moves, adds or removes a tag. */
  lemma MergeKeepsTags(r: Repo, taskKey: string, tasks: seq<string>, stableBranch: string)
    ensures Steps(r, MergeScript(taskKey, tasks, stableBranch)).repo.tags == r.tags
  {
    var script := MergeScript(taskKey, tasks, stableBranch);
    forall k | 0 <= k < |script|
      ensures TouchesNoTag(script[k])
    {
      var i := k / 3;
      assert script[3 * i..3 * i + 3] == TaskCommands(taskKey, tasks[i], stableBranch);
      assert script[k] == script[3 * i..3 * i + 3][k - 3 * i];
    }
    StepsKeepTags(r, script);
  }

  /** `GitHelper`, reduced to the repository its `git` method drives and the
      log of every git command it has issued. */
  class GitHelper {
    var repo: Repo
    var log: seq<Command>

    predicate Valid()
      reads this
    {
      WellFormed(repo)
    }

    constructor (initial: Repo)
      requires WellFormed(initial)
      ensures Valid() && repo == initial && log == []
    {
      repo := initial;
      log := [];
    }

    /** `git`: runs one command; a non-zero exit raises `GitError`. */
    method Git(args: Command) returns (out: Result<set<string>>)
      requires Valid()
      modifies this
      ensures Valid()
      ensures repo == Exec(old(repo), args).repo && out == Exec(old(repo), args).out
      ensures log == old(log) + [args]
    {
      var reply := Exec(repo, args);
      repo := reply.repo;
      out := reply.out;
      log := log + [args];
    }

    /** `find_tags`: the tags matching a glob pattern. */
    method FindTags(pattern: string) returns (r: Result<set<string>>)
      requires Valid()
      modifies this
      ensures Valid() && repo == old(repo)
      ensures log == old(log) + [["tag", "-l", pattern]]
      ensures r == if IsOption(pattern) then Failure(GitError(CommandFailed))
                   else Success(ListTags(repo, pattern))
    {
      r := Git(["tag", "-l", pattern]);
    }

    /** `checkout`. */
    method Checkout(branch: string) returns (r: Result<()>)
      requires Valid()
      modifies this
      ensures Valid()
      ensures repo == Exec(old(repo), ["checkout", branch]).repo
      ensures log == old(log) + [["checkout", branch]]
      ensures r.Success? <==> Exec(old(repo), ["checkout", branch]).out.Success?
      ensures r.Failure? ==> r == Failure(GitError(CommandFailed))
    {
      var out := Git(["checkout", branch]);
      if out.Failure? {
        return Failure(out.error);
      }
      return Success(());
    }

    /** `get_current_build_number`. Every listed tag is a real ref name, so
        none holds the `*` of the pattern, nothing is stripped, and the
        number is always 1. The empty version gives the pattern `-rc*`,
        which git takes for options, and the listing fails. */
    method GetCurrentBuildNumber(version: Version) returns (r: Result<nat>)
      requires Valid()
      modifies this
      ensures Valid() && repo == old(repo)
      ensures log == old(log) + [["tag", "-l", RcTag(Render(version), "*")]]
      ensures r == if version == [] then Failure(GitError(CommandFailed)) else Success(1)
    {
      CandidatePatternIsOption(version);
      var found := FindTags(RcTag(Render(version), "*"));
      match found {
        case Failure(e) =>
          return Failure(e);
        case Success(tags) =>
          NoCandidateYieldsNumber(version, tags);
          var n := NextBuildNumber(Render(version), tags);
          return Success(n);
      }
    }

    /** `check_version`: the previous release must exist (unless it is the
        first version) and the next version must not have a candidate yet. */
    method CheckVersion(version: Version) returns (r: Result<()>)
      requires Valid()
      modifies this
      ensures Valid() && repo == old(repo)
      ensures LessEq(version, Zero) ==> r == Failure(GitError(InvalidVersion)) && log == old(log)
      ensures !LessEq(version, Zero) ==>
        var prev := Render(Bump(version, true));
        var next := Render(Bump(version, false));
        var lookups := if prev == "0.0.0" then [] else [["tag", "-l", prev]];
        if prev != "0.0.0" && prev !in repo.tags then
          r == Failure(GitError(PreviousNotReleased)) && log == old(log) + lookups
        else
          log == old(log) + lookups + [["tag", "-l", RcTag(next, "*")]] &&
          r == if exists t :: t in repo.tags && HasPrefix(next + "-rc", t)
               then Failure(GitError(NextAlreadyStarted)) else Success(())
    {
      var prev := PreviousVersion(version);
      match prev {
        case Failure(e) =>
          return Failure(e);
        case Success(p) =>
          RenderHasNoSpecials(Bump(version, true));
          RenderHasNoSpecials(Bump(version, false));
          ListExactName(repo, p);
          if p != "0.0.0" {
            var found := FindTags(ReleaseTag(p));
            if found == Success({}) {
              return Failure(GitError(PreviousNotReleased));
            }
          }
          var next := NextVersion(version);
          match next {
            case Failure(e) =>
              return Failure(e);
            case Success(n) =>
              ListTagsByPrefix(repo, n + "-rc");
              var started := FindTags(RcTag(n, "*"));
              if started != Success({}) {
                return Failure(GitError(NextAlreadyStarted));
              }
              return Success(());
          }
      }
    }

    /** `get_or_create_stable`: names the stable branch and, when it does not
        exist yet, creates it from the release tag of the previous version and
        checks it out. */
    method GetOrCreateStable(version: Version) returns (r: Result<string>)
      requires |version| == 3 && Valid()
      modifies this
      ensures Valid()
      ensures
        var b := StableBranch(version);
        var start := ReleaseTag(Render(Bump(version, true)));
        if b == "master" then
          r == Success("master") && repo == old(repo) && log == old(log)
        else if b in old(repo).branches then
          r == Success(b) && repo == old(repo) && log == old(log) + [["branch", "--list", b]]
        else
          log == old(log) + [["branch", "--list", b], ["checkout", "-b", b, start]] &&
          match Resolve(old(repo), start)
          case None => r == Failure(GitError(CommandFailed)) && repo == old(repo)
          case Some(c) =>
            r == Success(b) &&
            repo == old(repo).(branches := old(repo).branches[b := c], head := OnBranch(b))
    {
      PositiveIffNonZero(version);
      assert version[1..] == [version[1], version[2]];
      if version[1..] == [0, 0] {
        return Success("master");
      }
      var branch := StableBranch(version);
      ExecListBranch(repo, branch);
      var listed := Git(["branch", "--list", branch]);
      if listed == Success({}) {
        var prev := PreviousVersion(version);
        match prev {
          case Failure(e) =>
            return Failure(e);
          case Success(p) =>
            ExecCreateBranch(repo, branch, ReleaseTag(p));
            var created := Git(["checkout", "-b", branch, ReleaseTag(p)]);
            if created.Failure? {
              return Failure(created.error);
            }
        }
      }
      return Success(branch);
    }

    /** `merge_tasks`: refuses an empty task list; otherwise, task by task,
        checks out the task branch, then the stable branch, and merges the
        task with `--no-ff`, stopping at the first failing command. */
    method MergeTasks(taskKey: string, tasks: seq<string>, stableBranch: string) returns (r: Result<()>)
      requires Valid()
      modifies this
      ensures Valid()
      ensures tasks == [] ==> r == Failure(ValueError) && repo == old(repo) && log == old(log)
      ensures tasks != [] ==>
        var run := Steps(old(repo), MergeScript(taskKey, tasks, stableBranch));
        repo == run.repo && log == old(log) + run.issued &&
        r == if run.ok then Success(()) else Failure(GitError(CommandFailed))
    {
      if |tasks| == 0 {
        return Failure(ValueError);
      }
      ghost var full := Steps(repo, MergeScript(taskKey, tasks, stableBranch));
      ghost var issued: seq<Command> := [];
      var i := 0;
      while i < |tasks|
        invariant 0 <= i <= |tasks|
        invariant Valid()
        invariant full == After(issued, Steps(repo, MergeScript(taskKey, tasks[i..], stableBranch)))
        invariant log == old(log) + issued
      {
        var key := tasks[i];
        ghost var part := Steps(repo, TaskCommands(taskKey, key, stableBranch));
        MergeScriptFrom(repo, taskKey, tasks, i, stableBranch);

        var merged := MergeTask(taskKey, key, stableBranch);
        AfterAfter(issued, part.issued, Steps(repo, MergeScript(taskKey, tasks[i + 1..], stableBranch)));
        AppendAssociative(old(log), issued, part.issued);
        issued := issued + part.issued;
        if merged.Failure? {
          return merged;
        }
        i := i + 1;
      }
      assert tasks[i..] == [];
      return Success(());
    }

    /** The body of the loop of `merge_tasks`, for one task: check out the
        task branch, then the stable branch, then merge the task into it. */
    method MergeTask(taskKey: string, key: string, stableBranch: string) returns (r: Result<()>)
      requires Valid()
      modifies this
      ensures Valid()
      ensures var run := Steps(old(repo), TaskCommands(taskKey, key, stableBranch));
        repo == run.repo && log == old(log) + run.issued &&
        r == if run.ok then Success(()) else Failure(GitError(CommandFailed))
    {
      var message := taskKey + " merge tasks " + key;
      ghost var c0: Command, c1: Command, c2: Command :=
        ["checkout", key], ["checkout", stableBranch], ["merge", "--no-ff", key, "-m", message];
      assert TaskCommands(taskKey, key, stableBranch) == [c0] + ([c1] + [c2]);
      ghost var r0 := repo;
      StepsCons(r0, c0, [c1] + [c2]);
      var checkedOut := Checkout(key);
      if checkedOut.Failure? {
        return checkedOut;
      }
      ghost var r1 := repo;
      StepsCons(r1, c1, [c2]);
      var onStable := Checkout(stableBranch);
      if onStable.Failure? {
        return onStable;
      }
      ghost var r2 := repo;
      StepsCons(r2, c2, []);
      var out := Git(["merge", "--no-ff", key, "-m", message]);
      if out.Failure? {
        return Failure(out.error);
      }
      return Success(());
    }

    /** `release_candidate`: tags HEAD with the next candidate tag and returns it.
        The build number is always 1, so only the first call per version can
        succeed: the next one finds rc1 taken. */
    method ReleaseCandidate(version: Version) returns (r: Result<string>)
      requires Valid()
      modifies this
      ensures Valid()
      ensures
        var listing := ["tag", "-l", RcTag(Render(version), "*")];
        var tag := RcTag(Render(version), "1");
        if version == [] then
          r == Failure(GitError(CommandFailed)) && repo == old(repo) && log == old(log) + [listing]
        else
        log == old(log) + [listing, ["tag", tag]] &&
        if tag !in old(repo).tags && HeadCommit(old(repo)).Some? then
          r == Success(tag) && repo == old(repo).(tags := old(repo).tags[tag := HeadCommit(old(repo)).value])
        else
          r == Failure(GitError(CommandFailed)) && repo == old(repo)
    {
      var number := GetCurrentBuildNumber(version);
      match number {
        case Failure(e) =>
          return Failure(e);
        case Success(n) =>
          var tag := RcTag(Render(version), NatToString(n));
          assert NatToString(1) == "1";
          RcTagValid(version, n);
          var out := Git(["tag", tag]);
          if out.Failure? {
            return Failure(out.error);
          }
          return Success(tag);
      }
    }

    /** `release`: tags with the bare version the commit of the candidate tag
        whose number `get_current_build_number` gives, always rc1;
        `buildNumber` plays no part. */
    method Release(version: Version, buildNumber: nat) returns (r: Result<string>)
      requires Valid()
      modifies this
      ensures Valid()
      ensures
        var listing := ["tag", "-l", RcTag(Render(version), "*")];
        var source := RcTag(Render(version), "1");
        var tag := ReleaseTag(Render(version));
        if version == [] then
          r == Failure(GitError(CommandFailed)) && repo == old(repo) && log == old(log) + [listing]
        else
        log == old(log) + [listing, ["tag", tag, source]] &&
        if tag !in old(repo).tags && Resolve(old(repo), source).Some? then
          r == Success(tag) && repo == old(repo).(tags := old(repo).tags[tag := Resolve(old(repo), source).value])
        else
          r == Failure(GitError(CommandFailed)) && repo == old(repo)
    {
      var number := GetCurrentBuildNumber(version);
      match number {
        case Failure(e) =>
          return Failure(e);
        case Success(n) =>
          var source := RcTag(Render(version), NatToString(n));
          assert NatToString(1) == "1";
          var tag := ReleaseTag(Render(version));
          ReleaseTagValid(version);
          RenderHasNoSpecials(version);
          var out := Git(["tag", tag, source]);
          if out.Failure? {
            return Failure(out.error);
          }
          return Success(tag);
      }
    }
  }

  /** The candidate pattern reads as an option exactly for the empty version. */
  lemma CandidatePatternIsOption(v: Version)
    ensures IsOption(RcTag(Render(v), "*")) <==> v == []
  {
    if v != [] {
      assert RcTag(Render(v), "*")[0] == Render(v)[0];
    }
  }

  lemma RcTagValid(v: Version, n: nat)
    ensures ValidRefName(RcTag(Render(v), NatToString(n))) <==> v != []
  {
    RenderShape(v);
    var s := RcTag(Render(v), NatToString(n));
    if v != [] {
      assert s[0] == Render(v)[0];
    }
    forall k | 0 <= k < |s|
      ensures ' ' < s[k] && s[k] != '\U{7F}' && s[k] !in "~^:?*[\\"
    {
      if k < |Render(v)| {
        assert s[k] == Render(v)[k];
      } else if k >= |Render(v)| + 3 {
        assert s[k] == NatToString(n)[k - |Render(v)| - 3];
      }
    }
  }

  lemma ReleaseTagValid(v: Version)
    ensures ValidRefName(ReleaseTag(Render(v))) <==> v != []
  {
    RenderShape(v);
  }
}
