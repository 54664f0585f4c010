/** The git repository that `GitHelper.git` drives, as an in-memory state,
    and the effect of each git command the helper issues on it. */
module Repository {
  import opened Errors
  import opened Text

  /** An opaque commit identifier. */
  type Commit = nat

  /** The argument tuple of one `git` invocation, `git` itself left out. */
  type Command = seq<string>

  datatype Head = OnBranch(name: string) | Detached(at: Commit)

  /** Tags and branches name commits; `conflicts` holds the refs whose merge
      into the current branch stops with a conflict, standing in for the
      contents that decide that; `nextCommit` is the identifier a merge gives
      the commit it creates. Nothing requires that identifier to be unused:
      the model never compares commits, it only records which ref names which. */
  datatype Repo = Repo(
    tags: map<string, Commit>,
    branches: map<string, Commit>,
    head: Head,
    nextCommit: Commit,
    conflicts: set<string>)

  /** What one command leaves behind: the new state, and its standard output
      split into words, or the error it raised. */
  datatype Reply = Reply(repo: Repo, out: Result<set<string>>)

  /** An argument git's option parser takes for an option, not a name. */
  predicate IsOption(arg: string) {
    |arg| > 0 && arg[0] == '-'
  }

  /** The names git accepts for a tag or branch, as far as the helper's names
      can run into its checks: not empty, not an option, and none of the
      characters `git check-ref-format` refuses anywhere in a name (control
      characters, space, DEL and `~^:?*[\`). No name holds whitespace, so
      a listing split into words gives back whole names. */
  predicate ValidRefName(name: string) {
    |name| > 0 && !IsOption(name) &&
    forall k :: 0 <= k < |name| ==>
      ' ' < name[k] && name[k] != '\U{7F}' && name[k] !in "~^:?*[\\"
  }

  /** Every tag and branch name in a repository passed git's name check. */
  predicate WellFormed(r: Repo) {
    (forall t :: t in r.tags ==> ValidRefName(t)) &&
    (forall b :: b in r.branches ==> ValidRefName(b))
  }

  /** The commit a ref names; like `git rev-parse`, a tag wins over a branch. */
  function Resolve(r: Repo, ref: string): Option<Commit> {
    if ref in r.tags then Some(r.tags[ref])
    else if ref in r.branches then Some(r.branches[ref])
    else None
  }

  function HeadCommit(r: Repo): Option<Commit> {
    match r.head
    case OnBranch(b) => if b in r.branches then Some(r.branches[b]) else None
    case Detached(c) => Some(c)
  }

  function Fail(r: Repo): Reply {
    Reply(r, Failure(GitError(CommandFailed)))
  }

  function Done(r: Repo): Reply {
    Reply(r, Success({}))
  }

  /** `git tag -l <pattern>`: the tags the pattern matches. */
  function ListTags(r: Repo, pattern: string): set<string> {
    set t | t in r.tags && Glob(pattern, t)
  }

  /** `git branch --list <pattern>`: the branches the pattern matches. */
  function ListBranches(r: Repo, pattern: string): set<string> {
    set b | b in r.branches && Glob(pattern, b)
  }

  /** Listing with a plain name finds that name or nothing. */
  lemma ListExactName(r: Repo, name: string)
    requires '*' !in name
    ensures ListTags(r, name) == {} <==> name !in r.tags
    ensures ListBranches(r, name) == {} <==> name !in r.branches
  {
    GlobLiteral(name, name);
    if name in r.tags {
      assert name in ListTags(r, name);
    }
    if name in r.branches {
      assert name in ListBranches(r, name);
    }
    if ListTags(r, name) != {} {
      var t :| t in ListTags(r, name);
      GlobLiteral(name, t);
    }
    if ListBranches(r, name) != {} {
      var b :| b in ListBranches(r, name);
      GlobLiteral(name, b);
    }
  }

  /** Listing with `prefix*` finds something exactly when some tag starts with `prefix`. */
  lemma ListTagsByPrefix(r: Repo, prefix: string)
    requires '*' !in prefix
    ensures ListTags(r, prefix + "*") == {} <==> !exists t :: t in r.tags && HasPrefix(prefix, t)
  {
    if ListTags(r, prefix + "*") != {} {
      var t :| t in ListTags(r, prefix + "*");
      GlobPrefix(prefix, t);
    }
    if exists t :: t in r.tags && HasPrefix(prefix, t) {
      var t :| t in r.tags && HasPrefix(prefix, t);
      GlobPrefix(prefix, t);
      assert t in ListTags(r, prefix + "*");
    }
  }

  /** `git checkout -b <name> <start>`: a new branch at `start`, checked out. */
  function CreateBranch(r: Repo, name: string, start: string): Reply {
    if !ValidRefName(name) || name in r.branches || Resolve(r, start).None? then Fail(r)
    else Done(r.(branches := r.branches[name := Resolve(r, start).value], head := OnBranch(name)))
  }

  /** `git checkout <ref>`: a branch is checked out, a tag detaches HEAD. */
  function Switch(r: Repo, ref: string): Reply {
    if ref in r.branches then Done(r.(head := OnBranch(ref)))
    else if ref in r.tags then Done(r.(head := Detached(r.tags[ref])))
    else Fail(r)
  }

  /** `git merge --no-ff <ref> -m <message>`: a new merge commit on HEAD, or a
      failure when `ref` is unknown, HEAD is unborn or the merge conflicts. */
  function Merge(r: Repo, ref: string): Reply {
    if Resolve(r, ref).None? || ref in r.conflicts || HeadCommit(r).None? then Fail(r)
    else
      var c := r.nextCommit;
      match r.head
      case OnBranch(b) => Done(r.(branches := r.branches[b := c], nextCommit := c + 1))
      case Detached(_) => Done(r.(head := Detached(c), nextCommit := c + 1))
  }

  /** `git tag <name> [<ref>]`: a new tag at `ref`, or at HEAD; an existing
      name is refused. */
  function AddTag(r: Repo, name: string, at: Option<Commit>): Reply {
    if !ValidRefName(name) || name in r.tags || at.None? then Fail(r)
    else Done(r.(tags := r.tags[name := at.value]))
  }

  /** One git command. Only the command shapes the helper issues are given a
      meaning; any other command fails, and so does a listing whose pattern
      git's option parser takes for an option. */
  function Exec(r: Repo, args: Command): (reply: Reply)
    ensures reply.out.Failure? ==> reply.repo == r && reply.out.error == GitError(CommandFailed)
    ensures WellFormed(r) ==> WellFormed(reply.repo)
  {
    if |args| == 3 && args[0] == "tag" && args[1] == "-l" then
      if IsOption(args[2]) then Fail(r) else Reply(r, Success(ListTags(r, args[2])))
    else if |args| == 3 && args[0] == "branch" && args[1] == "--list" then
      if IsOption(args[2]) then Fail(r) else Reply(r, Success(ListBranches(r, args[2])))
    else if |args| == 4 && args[0] == "checkout" && args[1] == "-b" then CreateBranch(r, args[2], args[3])
    else if |args| == 2 && args[0] == "checkout" then Switch(r, args[1])
    else if |args| == 5 && args[0] == "merge" && args[1] == "--no-ff" && args[3] == "-m" then Merge(r, args[2])
    else if |args| == 2 && args[0] == "tag" then AddTag(r, args[1], HeadCommit(r))
    else if |args| == 3 && args[0] == "tag" then AddTag(r, args[1], Resolve(r, args[2]))
    else Fail(r)
  }

  /** `git branch --list <name>` with a plain name finds something exactly
      when the branch exists, and changes nothing. */
  lemma ExecListBranch(r: Repo, name: string)
    requires '*' !in name && !IsOption(name)
    ensures Exec(r, ["branch", "--list", name]).repo == r
    ensures Exec(r, ["branch", "--list", name]).out == Success({}) <==> name !in r.branches
  {
    ListExactName(r, name);
  }

  /** `git checkout -b <name> <start>` for a new, valid name: the branch is
      created at `start` and checked out, or nothing happens when `start`
      names no commit. */
  lemma ExecCreateBranch(r: Repo, name: string, start: string)
    requires ValidRefName(name) && name !in r.branches
    ensures Exec(r, ["checkout", "-b", name, start]) ==
      match Resolve(r, start)
      case None => Fail(r)
      case Some(c) => Done(r.(branches := r.branches[name := c], head := OnBranch(name)))
  {
  }

  /** Running commands one after another, as a sequence of `self.git` calls
      does: the first failure raises, and nothing after it is issued. */
  datatype Run = Run(repo: Repo, issued: seq<Command>, ok: bool)

  /** A run whose commands follow the already issued `pre`. */
  function After(pre: seq<Command>, run: Run): Run {
    run.(issued := pre + run.issued)
  }

  function Steps(r: Repo, cmds: seq<Command>): (run: Run)
    ensures |run.issued| <= |cmds|
    ensures run.issued == cmds[..|run.issued|]
    ensures run.ok ==> run.issued == cmds
    ensures !run.ok ==> |run.issued| > 0
    ensures WellFormed(r) ==> WellFormed(run.repo)
    decreases |cmds|
  {
    if cmds == [] then Run(r, [], true)
    else
      var reply := Exec(r, cmds[0]);
      if reply.out.Failure? then Run(r, [cmds[0]], false)
      else
        var rest := Steps(reply.repo, cmds[1..]);
        assert cmds[..|rest.issued| + 1] == [cmds[0]] + cmds[1..][..|rest.issued|];
        Run(rest.repo, [cmds[0]] + rest.issued, rest.ok)
  }

  /** Running `c` and then `rest`. */
  lemma StepsCons(r: Repo, c: Command, rest: seq<Command>)
    ensures Steps(r, [c] + rest) ==
      if Exec(r, c).out.Failure? then Run(r, [c], false)
      else After([c], Steps(Exec(r, c).repo, rest))
  {
    assert ([c] + rest)[0] == c && ([c] + rest)[1..] == rest;
  }

  lemma AfterAfter(a: seq<Command>, b: seq<Command>, run: Run)
    ensures After(a, After(b, run)) == After(a + b, run)
  {
  }

  /** A run stops exactly at a failing command: every command before it
      succeeded, and the last one issued failed. */
  lemma {:induction false} StepsStopsAtFailure(r: Repo, cmds: seq<Command>)
    requires !Steps(r, cmds).ok
    ensures var run := Steps(r, cmds);
      var k := |run.issued| - 1;
      Steps(r, cmds[..k]).ok &&
      Exec(Steps(r, cmds[..k]).repo, cmds[k]).out.Failure? &&
      run.repo == Steps(r, cmds[..k]).repo
    decreases |cmds|
  {
    var reply := Exec(r, cmds[0]);
    if reply.out.Failure? {
      assert cmds[..0] == [];
    } else {
      var rest := Steps(reply.repo, cmds[1..]);
      var k := |rest.issued|;
      StepsStopsAtFailure(reply.repo, cmds[1..]);
      var prefix := cmds[..k];
      assert prefix[0] == cmds[0];
      assert prefix[1..] == cmds[1..][..k - 1];
      assert Steps(r, prefix) == Steps(reply.repo, cmds[1..][..k - 1]).(issued := [cmds[0]] + Steps(reply.repo, cmds[1..][..k - 1]).issued);
    }
  }

  /** Running `a` and then `b`: `b` runs only if all of `a` succeeded. */
  lemma {:induction false} StepsConcat(r: Repo, a: seq<Command>, b: seq<Command>)
    ensures Steps(r, a + b) ==
      if Steps(r, a).ok then After(a, Steps(Steps(r, a).repo, b)) else Steps(r, a)
    decreases |a|
  {
    if a == [] {
      assert a + b == b;
    } else {
      assert (a + b)[0] == a[0] && (a + b)[1..] == a[1..] + b;
      var reply := Exec(r, a[0]);
      if reply.out.Success? {
        StepsConcat(reply.repo, a[1..], b);
        assert [a[0]] + a[1..] == a;
      }
    }
  }

  /** Checkouts and merges move branches and HEAD but never touch a tag. */
  predicate TouchesNoTag(c: Command) {
    (|c| == 2 && c[0] == "checkout") ||
    (|c| == 5 && c[0] == "merge" && c[1] == "--no-ff" && c[3] == "-m")
  }

  lemma {:induction false} StepsKeepTags(r: Repo, cmds: seq<Command>)
    requires forall k :: 0 <= k < |cmds| ==> TouchesNoTag(cmds[k])
    ensures Steps(r, cmds).repo.tags == r.tags
    decreases |cmds|
  {
    if cmds != [] && Exec(r, cmds[0]).out.Success? {
      assert TouchesNoTag(cmds[0]);
      StepsKeepTags(Exec(r, cmds[0]).repo, cmds[1..]);
    }
  }
}
