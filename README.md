# Release versions, tags and stable branches of `GitHelper`

This project models the release logic of `GitHelper` in `bamboo/git.py`, part
of a tool that cuts release branches and tags in git for a trunk/stable-branch
workflow, and proves properties of that model in Dafny.

- **Version arithmetic** (`Versions`). A version is a sequence of naturals,
  as `tuple_version` yields it. Versions compare like Python tuples. `_calc_version` rejects any
  version at or below `0.0.0`. Otherwise it walks the reversed components and
  moves the first non-zero one by one. The model states that walk as the
  recursive function `Bump` and proves that the loop computes it. Further
  lemmas say what `Bump` does: it changes only the lowest-order non-zero
  component; `previous < v < next`; `previous(next(v)) == v`; and the converse
  holds exactly when the decremented component stays non-zero.
- **Tags and build numbers** (`GitHelpers`). `_rc_tag` and `_release_tag`
  build tag names. `get_current_build_number` lists the candidate tags with the
  pattern `"{v}-rc*"`. It then removes that pattern, asterisk included, from
  each name and keeps the all-digit remainders.
- **The repository** (`Repository`). The repository that `self.git` drives is a value of
  type `Repo`: tags and branches mapping names to commits, HEAD, and the set of
  refs whose merge would conflict. `Exec` gives the effect of each git
  command the helper issues. A failing command raises `GitError` and leaves the
  state as it was. `Steps` runs a list of commands up to the first failure.
- **The helper** (`GitHelpers.GitHelper`). A class holding the repository and a log
  of every command issued. `check_version`, `get_or_create_stable`, `merge_tasks`,
  `release_candidate` and `release` are methods that issue the same commands
  as the source, in the same order. Their contracts give the complete new
  state, the commands issued and the result.

Behaviours of the code that the model keeps as written:

- The build number is always 1. Git refuses `*` in a ref name, so no tag name
  contains the pattern text and `replace` never changes a name. Each name then
  still holds `-` and fails `isdigit()`. `GetCurrentBuildNumber` proves `Success(1)` for
  every repository and every non-empty version. `get_current_build_number` returns 1 even when `1.0.0-rc1`
  and `1.0.0-rc3` exist (`CandidatesOneAndThree`). As a result, a second
  `release_candidate` of one version always fails: either `rc1` is taken, the version is empty, or
  HEAD still has no commit (`CandidateTwice`).
- `release` ignores its `build_number`: it tags the commit of `"{v}-rc1"`.
- `check_version(2.0.0)` looks at the candidates of `3.0.0`, not of `2.0.0`
  (`SecondMajor`, `SecondMajorFrozen`).
- An invalid version and a release-order violation both raise `GitError`. An
  empty task list raises `ValueError`. The model keeps these two error classes
  and records inside `GitError` which check failed.

## Model

| member | source | states |
|---|---|---|
| `Versions.Less` | bamboo/git.py:58 | Python's tuple `<`: no tuple is below itself, and a proper prefix is below the longer tuple |
| `Versions.LessTrichotomy` | bamboo/git.py:58 | the tuple `<` never holds both ways, and any two distinct tuples are ordered one way |
| `Versions.LessEq` | bamboo/git.py:58 | Python's tuple `<=` holds exactly when the reverse `<` does not |
| `Versions.Render` | bamboo/git.py:72 | `".".join(str(i) ...)` yields only digits and dots |
| `Versions.Step` | bamboo/git.py:61-64 | each `operator` moves a component by exactly one, downwards exactly for the previous version |
| `Versions.Bump` | bamboo/git.py:66-72 | the component walk keeps the number of components |
| `Versions.BumpAt` | bamboo/git.py:66-70 | the walk changes the lowest-order non-zero component by -1 or +1 and leaves every other component as it was |
| `Versions.BumpAllZero` | bamboo/git.py:66-70 | a version without a non-zero component comes back unchanged |
| `Versions.CalcVersion` | bamboo/git.py:56-72 | `_calc_version` fails with `GitError` exactly for versions at or below 0.0.0; otherwise the reversed-list loop with `break` yields the rendered `Bump` of the version |
| `Versions.PreviousVersion` | bamboo/git.py:74-81 | `previous_version` is the walk with -1, or the invalid-version error |
| `Versions.NextVersion` | bamboo/git.py:83-90 | `next_version` is the walk with +1, or the invalid-version error |
| `Versions.BumpOrder` | bamboo/git.py:74-90 | previous_version(v) < v < next_version(v) as Python tuples, whenever v has a non-zero component |
| `Versions.NextThenPrevious` | bamboo/git.py:74-90 | previous_version(next_version(v)) == v for every version |
| `Versions.PreviousThenNext` | bamboo/git.py:74-90 | next_version(previous_version(v)) == v exactly when the decremented component stays above zero (1.1.0 goes to 2.0.0) |
| `Versions.PositiveIffNonZero` | bamboo/git.py:58-59 | for three components, `v > 0.0.0` holds exactly when some component is non-zero, and `v <= 0.0.0` exactly when all are zero |
| `Versions.NextStaysPositive` | bamboo/git.py:108 | the next version of a valid version is valid again, so `check_version` never fails at its second call of `_calc_version` |
| `Versions.LessTransitive` | bamboo/git.py:58 | Python's tuple order is transitive |
| `Versions.LessAtFirstDifference` | bamboo/git.py:58 | tuples of one length are ordered by their first differing component |
| `Versions.RenderInjective` | bamboo/git.py:72 | `".".join(str(i) ...)` maps distinct versions to distinct strings |
| `Versions.RendersAsFirstVersion` | bamboo/git.py:103 | the string comparison with `FIRST_VERSION` is the same as comparing the version with 0.0.0 |
| `Versions.DocstringExamples` | bamboo/git.py:75-89 | the docstring examples of both operations, and next_version(previous_version(1.1.0)) == 2.0.0 |
| `Text.NatToString` | bamboo/git.py:31-32 | `str(n)` is a non-empty run of decimal digits without a leading zero |
| `Text.IsDigits` | bamboo/git.py:162 | `isdigit()` fails for any text holding `-` or `.` |
| `Text.DigitsValue` | bamboo/git.py:162-163 | `int(s)` of a digit string is 0 exactly when every digit is `0` |
| `Text.RemoveAll` | bamboo/git.py:161 | `replace(p, "")` never makes a string longer and introduces no character that was not in it |
| `Text.Glob` | bamboo/git.py:153 | the pattern match of `tag -l` and `branch --list`: a pattern without `*` matches only itself |
| `Text.DigitsValueOfNatToString` | bamboo/git.py:162-163 | `int(str(n)) == n` |
| `Text.RemoveAllAbsent` | bamboo/git.py:161 | `replace` leaves a name unchanged when the name lacks a character of the pattern |
| `Text.GlobLiteral` | bamboo/git.py:104 | a pattern without `*` matches exactly itself |
| `Text.GlobPrefix` | bamboo/git.py:111 | the pattern `p*` matches exactly the names that start with `p` |
| `Repository.Exec` | bamboo/git.py:38-53 | a git command either succeeds or fails with `GitError` and leaves the repository as it was; a listing whose pattern starts with `-` fails, because git reads it as options; ref-name validity is kept. It dispatches to `ListTags`, `ListBranches`, `CreateBranch`, `Switch`, `Merge` and `AddTag` |
| `Repository.ListExactName` | bamboo/git.py:150-154 | listing tags or branches with a plain name finds something exactly when that name exists |
| `Repository.ListTagsByPrefix` | bamboo/git.py:150-154 | listing tags with `p*` finds something exactly when some tag starts with `p` |
| `Repository.ExecListBranch` | bamboo/git.py:131 | `branch --list` with the stable branch name finds nothing exactly when the branch does not exist, and changes nothing |
| `Repository.ExecCreateBranch` | bamboo/git.py:134 | `checkout -b` of a new branch creates it at the start ref and checks it out, or changes nothing when the start ref names no commit |
| `Repository.Steps` | bamboo/git.py:50-52 | a run of git calls issues a prefix of its commands and issues all of them when none fails |
| `Repository.StepsStopsAtFailure` | bamboo/git.py:50-52 | a run that fails stopped at its last issued command, which failed after all earlier ones succeeded |
| `Repository.StepsConcat` | bamboo/git.py:145-148 | running two lists of commands one after the other runs the second only when the first succeeded |
| `Repository.StepsKeepTags` | bamboo/git.py:146-148 | checkouts and merges never change a tag |
| `GitHelpers.RcTag` | bamboo/git.py:29-32 | for a version without `-`, the candidate tag splits back uniquely: no other version without `-` and no other build number give the same name |
| `GitHelpers.ReleaseTag` | bamboo/git.py:34-36 | for a version without `-`, the release tag starts with no candidate prefix `w-rc` of any version `w`, so no candidate pattern lists it |
| `GitHelpers.RcTagMatchesPattern` | bamboo/git.py:29-32 | every candidate tag of a version matches that version's pattern `_rc_tag(v, "*")` |
| `GitHelpers.RcTagInjective` | bamboo/git.py:29-32 | distinct (version, build number) pairs give distinct candidate tags |
| `GitHelpers.ReleaseTagIsNoCandidate` | bamboo/git.py:34-36 | a release tag never matches the candidate pattern of any version |
| `GitHelpers.Remainder` | bamboo/git.py:161 | `t.replace(pattern, "")` never makes a name longer and leaves a name without `*` unchanged |
| `GitHelpers.CandidatePatternIsOption` | bamboo/git.py:159 | the candidate pattern starts with `-`, so git reads it as options, exactly for the empty version |
| `GitHelpers.NextBuildNumber` | bamboo/git.py:161-163 | the number is at least 1, above every all-digit remainder, and is 1 or one more than some remainder |
| `GitHelpers.NoCandidateYieldsNumber` | bamboo/git.py:159-161 | a listed tag without `*` yields no all-digit remainder |
| `GitHelpers.CandidatesOneAndThree` | bamboo/git.py:159-163 | the tags 1.0.0-rc1 and 1.0.0-rc3 yield no number |
| `GitHelpers.LiteralPatternYieldsNumber` | bamboo/git.py:159-161 | the replace strips the pattern text, asterisk included, from a name that holds it: `1.0.0-rc*5` leaves the number 5 |
| `GitHelpers.StableBranch` | bamboo/git.py:121-129 | the stable branch is `master` exactly for (x,0,0); every name is a valid ref name |
| `GitHelpers.NextSharesStableBranch` | bamboo/git.py:108-111 | the next version uses the same stable branch as the version checked |
| `GitHelpers.PreviousSharesStableBranch` | bamboo/git.py:131-134 | the previous release, where a new branch starts, is on the same line unless the component drops to zero |
| `GitHelpers.TaskCommands` | bamboo/git.py:146-148 | one loop pass issues three commands, and none of them can change a tag |
| `GitHelpers.MergeScript` | bamboo/git.py:143-148 | three commands per task, in task order: checkout task, checkout stable branch, `merge --no-ff` with the message `"{task_key} merge tasks {key}"` |
| `GitHelpers.MergeScriptFrom` | bamboo/git.py:145-148 | from task `i` on, the loop runs task `i`'s commands and reaches the later tasks only when all of them succeeded |
| `GitHelpers.MergeKeepsTags` | bamboo/git.py:137-148 | merging tasks never changes a tag |
| `GitHelpers.GitHelper.Git` | bamboo/git.py:38-53 | one command is logged and applied to the repository |
| `GitHelpers.GitHelper.FindTags` | bamboo/git.py:150-154 | the tags the pattern matches, or `GitError` when the pattern starts with `-`; nothing changes but the log |
| `GitHelpers.GitHelper.Checkout` | bamboo/git.py:185-188 | one `checkout` is logged; the repository takes its effect, and the method fails with `GitError` exactly when that command fails |
| `GitHelpers.GitHelper.GetCurrentBuildNumber` | bamboo/git.py:156-163 | one `tag -l` is issued; the number is always 1, except for the empty version, whose pattern `-rc*` makes the listing fail |
| `GitHelpers.GitHelper.CheckVersion` | bamboo/git.py:92-113 | fails exactly when v <= 0.0.0, or the previous version is not 0.0.0 and has no release tag, or some tag starts with `"{next}-rc"`; never changes tags, branches or HEAD |
| `GitHelpers.GitHelper.GetOrCreateStable` | bamboo/git.py:115-135 | `master` with no command for (x,0,0); otherwise `minor/x.x` or `minor/x.y.x`, created from the release tag of the previous version and checked out only when absent |
| `GitHelpers.GitHelper.MergeTask` | bamboo/git.py:146-148 | one loop pass issues the three commands of one task, up to the first failure |
| `GitHelpers.GitHelper.MergeTasks` | bamboo/git.py:137-148 | `ValueError` and no command for no tasks; otherwise the merge script runs up to its first failure |
| `GitHelpers.GitHelper.ReleaseCandidate` | bamboo/git.py:165-170 | for the empty version only the failing listing is issued; otherwise adds exactly the tag `"{v}-rc1"` at HEAD and returns it, or fails and changes nothing when the tag exists or HEAD has no commit |
| `GitHelpers.GitHelper.Release` | bamboo/git.py:172-178 | for the empty version only the failing listing is issued; otherwise adds exactly the bare tag `v` at the commit of `"{v}-rc1"`, whatever the build number passed, or fails and changes nothing |
| `ReleaseScenarios.StableTwice` | bamboo/git.py:131-135 | a second `get_or_create_stable` returns the same branch and changes nothing |
| `ReleaseScenarios.CandidateTwice` | bamboo/git.py:156-170 | a second `release_candidate` for one version always fails |
| `ReleaseScenarios.StableBranchExamples` | bamboo/git.py:123-129 | 2.0.0 lands on `master`, 1.2.0 on `minor/1.x`, 1.2.3 on `minor/1.2.x` |
| `ReleaseScenarios.FirstRelease` | bamboo/git.py:99-106 | with no tags, 1.0.0 passes `check_version` |
| `ReleaseScenarios.SecondMajor` | bamboo/git.py:108-113 | with 1.0.0 released, 2.0.0 passes even though 2.0.0-rc1 exists |
| `ReleaseScenarios.SecondMajorFrozen` | bamboo/git.py:108-113 | once 3.0.0-rc1 exists, 2.0.0 is refused |

## Left out

- Running git as a process (`Popen`, echoing the command, writing stderr): replaced by the in-memory `Exec`.
- `clone` and `push`: they only forward to the remote, with no logic of their own.
- `__init__`, `parse_config`, the repository URL and the credentials: configuration loading from a file.
- The `smart_commits` table: nothing in this file uses it.
- `tuple_version` (bamboo/helpers) is not part of this model. Versions are taken as already parsed. A version the source receives as a string is taken to be `Render` of the model's version. `get_or_create_stable` passes its parsed tuple to `previous_version`, which parses it again; the model assumes `tuple_version` returns a tuple unchanged.
- `GitHelpers.GitHelper.GetOrCreateStable`: only three-component versions are modelled. For other lengths the source's `version[:2]` formatting can raise `TypeError`. The unused `task` and `interactive` parameters are dropped.
- `GitHelpers.GitHelper.MergeTasks`: a task is reduced to its key. A `task_key` argument that contains `%` goes through the source's two-step `%` formatting. Either it raises at the merge of the first task, after that task's two checkouts have run, or, for `%%`, it changes the message (`50%%` becomes `50%`). The model concatenates the strings, so it neither raises there nor changes the message. A `%` in a task's own key is harmless in both.
- Git's glob syntax beyond `*` (`?`, `[...]`). Of `git check-ref-format`, only the forbidden characters (control characters, space, DEL, `~^:?*[\`) and a leading `-` are modelled; `..`, `@{`, a `.lock` ending and the rules about `/` are not.
- `Text.IsDigits` models `str.isdigit()` on ASCII digits only. Python also accepts other Unicode digits such as `٣` or `²`. No listed name reaches that test without a `-` in it, so this does not change any result.
- The output of `tag -l` and `branch --list` is a set of names. Its order and line layout are not modelled.
- Remote-tracking branches: `git checkout KEY` with only `origin/KEY` present creates a local branch in git. The model has only local branches, so its checkout fails there and `MergeTasks` stops where the source goes on.
- Merge contents and conflict resolution. The set `conflicts` decides which merges fail. A `--no-ff` merge that is already up to date still creates a commit in the model. The identifier of a new merge commit is not required to be unused, since the model only records which ref names which commit.
- Concurrent runs against one remote: the source takes no locks.
