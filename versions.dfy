/** Release version numbers and the arithmetic of `GitHelper._calc_version`
    (bamboo/git.py), which backs `previous_version` and `next_version`. */
module Versions {
  import opened Errors
  import opened Text

  /** A parsed version: `(major, minor, patch)` as `tuple_version` yields it. */
  type Version = seq<nat>

  /** `GitHelper.FIRST_VERSION` parsed: the sentinel "nothing released yet". */
  const Zero: Version := [0, 0, 0]

  /** Python's `<` on tuples: lexicographic, and a proper prefix is smaller.
      No tuple is smaller than itself. */
  predicate Less(a: Version, b: Version)
    ensures Less(a, b) ==> a != b
    ensures |a| < |b| && a == b[..|a|] ==> Less(a, b)
    decreases |a|
  {
    if |b| == 0 then false
    else if |a| == 0 then true
    else
      assert |a| < |b| && a == b[..|a|] ==> a[1..] == b[1..][..|a| - 1];
      a[0] < b[0] || (a[0] == b[0] && Less(a[1..], b[1..]))
  }

  /** `Less` is a strict total order: never both ways, and any two distinct
      tuples are ordered one way. */
  lemma {:induction false} LessTrichotomy(a: Version, b: Version)
    ensures Less(a, b) ==> !Less(b, a)
    ensures a != b ==> Less(a, b) || Less(b, a)
    decreases |a|
  {
    if |a| > 0 && |b| > 0 && a[0] == b[0] {
      assert a == [a[0]] + a[1..] && b == [b[0]] + b[1..];
      LessTrichotomy(a[1..], b[1..]);
    }
  }

  /** Python's `<=` on tuples, which is the same as "not greater". */
  predicate LessEq(a: Version, b: Version)
    ensures LessEq(a, b) <==> !Less(b, a)
  {
    LessTrichotomy(a, b);
    Less(a, b) || a == b
  }

  lemma {:induction false} LessTransitive(a: Version, b: Version, c: Version)
    requires Less(a, b) && Less(b, c)
    ensures Less(a, c)
    decreases |a|
  {
    if |a| > 0 && a[0] == b[0] && b[0] == c[0] {
      LessTransitive(a[1..], b[1..], c[1..]);
    }
  }

  /** Two versions of one length are ordered by their first differing component. */
  lemma {:induction false} LessAtFirstDifference(a: Version, b: Version, i: nat)
    requires |a| == |b| && i < |a|
    requires a[..i] == b[..i] && a[i] < b[i]
    ensures Less(a, b)
    decreases i
  {
    if i > 0 {
      assert a[0] == a[..i][0] == b[..i][0] == b[0];
      assert a[1..][..i - 1] == a[..i][1..] == b[..i][1..] == b[1..][..i - 1];
      LessAtFirstDifference(a[1..], b[1..], i - 1);
    }
  }

  /** `i` is the position of the lowest-order (rightmost) non-zero component. */
  predicate IsLowestNonZero(v: Version, i: int) {
    0 <= i < |v| && v[i] > 0 && forall j :: i < j < |v| ==> v[j] == 0
  }

  predicate AllZero(v: Version) {
    forall j :: 0 <= j < |v| ==> v[j] == 0
  }

  /** The two operators `_calc_version` chooses between: a move by exactly
      one, downwards for the previous version and upwards for the next. */
  function Step(n: nat, previous: bool): (r: nat)
    requires previous ==> n > 0
    ensures r == n + 1 || r + 1 == n
    ensures previous <==> r < n
  {
    if previous then n - 1 else n + 1
  }

  /** Reference definition of the component walk: the lowest-order non-zero
      component moves by one; a version with no such component is unchanged. */
  function Bump(v: Version, previous: bool): (r: Version)
    ensures |r| == |v|
    decreases |v|
  {
    if |v| == 0 then v
    else if v[|v| - 1] > 0 then v[..|v| - 1] + [Step(v[|v| - 1], previous)]
    else Bump(v[..|v| - 1], previous) + [0]
  }

  /** `Bump` changes the lowest-order non-zero component by one and nothing else. */
  lemma {:induction false} BumpAt(v: Version, i: nat, previous: bool)
    requires IsLowestNonZero(v, i)
    ensures Bump(v, previous) == v[i := Step(v[i], previous)]
    decreases |v|
  {
    var n := |v|;
    if i < n - 1 {
      var init := v[..n - 1];
      assert IsLowestNonZero(init, i);
      BumpAt(init, i, previous);
      assert v == init + [0];
      assert init[i := Step(v[i], previous)] + [0] == v[i := Step(v[i], previous)];
    }
  }

  /** Without a non-zero component the walk finds nothing to change. */
  lemma {:induction false} BumpAllZero(v: Version, previous: bool)
    requires AllZero(v)
    ensures Bump(v, previous) == v
    decreases |v|
  {
    if |v| > 0 {
      BumpAllZero(v[..|v| - 1], previous);
      assert v == v[..|v| - 1] + [0];
    }
  }

  lemma {:induction false} LowestNonZeroExists(v: Version) returns (i: nat)
    requires !AllZero(v)
    ensures IsLowestNonZero(v, i)
    decreases |v|
  {
    var n := |v|;
    if v[n - 1] > 0 {
      i := n - 1;
    } else {
      var init := v[..n - 1];
      assert !AllZero(init);
      i := LowestNonZeroExists(init);
    }
  }

  /** previous_version(v) < v < next_version(v) whenever v has a non-zero component. */
  lemma BumpOrder(v: Version)
    requires !AllZero(v)
    ensures Less(Bump(v, true), v) && Less(v, Bump(v, false))
  {
    var i := LowestNonZeroExists(v);
    BumpAt(v, i, true);
    BumpAt(v, i, false);
    LessAtFirstDifference(Bump(v, true), v, i);
    LessAtFirstDifference(v, Bump(v, false), i);
  }

  /** previous_version(next_version(v)) == v, for every version. */
  lemma NextThenPrevious(v: Version)
    ensures Bump(Bump(v, false), true) == v
  {
    if AllZero(v) {
      BumpAllZero(v, false);
      BumpAllZero(v, true);
    } else {
      var i := LowestNonZeroExists(v);
      BumpAt(v, i, false);
      var w := Bump(v, false);
      assert IsLowestNonZero(w, i);
      BumpAt(w, i, true);
    }
  }

  /** The converse round trip holds exactly when the decremented component
      stays non-zero: next_version(previous_version(1.1.0)) is 2.0.0. */
  lemma PreviousThenNext(v: Version, i: nat)
    requires IsLowestNonZero(v, i)
    ensures Bump(Bump(v, true), false) == v <==> v[i] > 1
  {
    BumpAt(v, i, true);
    var w := Bump(v, true);
    if v[i] > 1 {
      assert IsLowestNonZero(w, i);
      BumpAt(w, i, false);
    } else if AllZero(w) {
      BumpAllZero(w, false);
      assert Bump(w, false)[i] == 0;
    } else {
      var j := LowestNonZeroExists(w);
      BumpAt(w, j, false);
      assert Bump(w, false)[i] == 0;
    }
  }

  /** For three-component versions, `v > 0.0.0` says that some component is
      non-zero, so the walk always finds one. */
  lemma PositiveIffNonZero(v: Version)
    requires |v| == 3
    ensures Less(Zero, v) <==> !AllZero(v)
    ensures LessEq(v, Zero) <==> AllZero(v)
  {
    assert !Less(v[2..], Zero[2..]) && !Less(v[1..], Zero[1..]) && !Less(v, Zero);
    if !AllZero(v) {
      assert v[0] > 0 || v[1] > 0 || v[2] > 0;
    } else {
      assert v == Zero;
    }
  }

  /** next_version never leaves the range of valid versions. */
  lemma NextStaysPositive(v: Version)
    requires Less(Zero, v)
    ensures Less(Zero, Bump(v, false))
  {
    if AllZero(v) {
      BumpAllZero(v, false);
    } else {
      BumpOrder(v);
      LessTransitive(Zero, v, Bump(v, false));
    }
  }

  /** `".".join(str(i) for i in v)`. */
  function Render(v: Version): (s: string)
    ensures forall k :: 0 <= k < |s| ==> IsDigitChar(s[k]) || s[k] == '.'
    ensures |s| == 0 <==> |v| == 0
    ensures |s| > 0 ==> IsDigitChar(s[0])
    decreases |v|
  {
    if |v| == 0 then ""
    else if |v| == 1 then NatToString(v[0])
    else NatToString(v[0]) + "." + Render(v[1..])
  }

  lemma RenderShape(v: Version)
    ensures |Render(v)| == 0 <==> |v| == 0
    ensures '.' in Render(v) <==> |v| >= 2
  {
    if |v| >= 2 {
      assert Render(v)[|NatToString(v[0])|] == '.';
    }
  }

  /** Distinct versions render to distinct strings. */
  lemma {:induction false} RenderInjective(a: Version, b: Version)
    requires Render(a) == Render(b)
    ensures a == b
    decreases |a|
  {
    RenderShape(a);
    RenderShape(b);
    if |a| >= 2 {
      SplitAtFirst(NatToString(a[0]), Render(a[1..]), NatToString(b[0]), Render(b[1..]), '.');
      NatToStringInjective(a[0], b[0]);
      RenderInjective(a[1..], b[1..]);
      assert a == [a[0]] + a[1..] && b == [b[0]] + b[1..];
    } else if |a| == 1 {
      NatToStringInjective(a[0], b[0]);
    }
  }

  /** `check_version` compares the rendered previous version with the string
      "0.0.0"; that comparison is the same as comparing with `Zero`. */
  lemma RendersAsFirstVersion(p: Version)
    ensures Render(p) == "0.0.0" <==> p == Zero
  {
    assert Render(Zero) == "0.0.0";
    if Render(p) == "0.0.0" {
      RenderInjective(p, Zero);
    }
  }

  /** `_calc_version`: rejects versions at or below 0.0.0; otherwise walks the
      reversed components and changes the first non-zero one. */
  method CalcVersion(version: Version, previous: bool) returns (r: Result<string>)
    ensures LessEq(version, Zero) ==> r == Failure(GitError(InvalidVersion))
    ensures !LessEq(version, Zero) ==> r == Success(Render(Bump(version, previous)))
  {
    if LessEq(version, Zero) {
      return Failure(GitError(InvalidVersion));
    }
    var n := |version|;
    var reversed := seq(n, k requires 0 <= k < n => version[n - 1 - k]);
    ghost var changed := false;
    var i := 0;
    while i < n
      invariant 0 <= i <= n && |reversed| == n
      invariant forall k :: 0 <= k < i ==> reversed[k] == 0
      invariant reversed == seq(n, k requires 0 <= k < n => version[n - 1 - k])
    {
      if reversed[i] > 0 {
        assert forall j :: n - 1 - i < j < n ==> version[j] == reversed[n - 1 - j];
        reversed := reversed[i := Step(reversed[i], previous)];
        BumpAt(version, n - 1 - i, previous);
        changed := true;
        break;
      }
      i := i + 1;
    }
    var restored := seq(n, k requires 0 <= k < n => reversed[n - 1 - k]);
    if !changed {
      assert forall j :: 0 <= j < n ==> version[j] == reversed[n - 1 - j];
      BumpAllZero(version, previous);
      assert restored == version;
    } else {
      assert restored == version[n - 1 - i := Step(version[n - 1 - i], previous)];
    }
    return Success(Render(restored));
  }

  /** `previous_version`: the release this one is built on. */
  method PreviousVersion(version: Version) returns (r: Result<string>)
    ensures LessEq(version, Zero) ==> r == Failure(GitError(InvalidVersion))
    ensures !LessEq(version, Zero) ==> r == Success(Render(Bump(version, true)))
  {
    r := CalcVersion(version, true);
  }

  /** `next_version`: the release that follows this one on the same stable branch. */
  method NextVersion(version: Version) returns (r: Result<string>)
    ensures LessEq(version, Zero) ==> r == Failure(GitError(InvalidVersion))
    ensures !LessEq(version, Zero) ==> r == Success(Render(Bump(version, false)))
  {
    r := CalcVersion(version, false);
  }

  /** The docstring examples of `previous_version` and `next_version`. */
  lemma DocstringExamples()
    ensures Bump([1, 0, 0], true) == [0, 0, 0]
    ensures Bump([1, 2, 1], true) == [1, 2, 0]
    ensures Bump([1, 2, 2], true) == [1, 2, 1]
    ensures Bump([1, 1, 0], true) == [1, 0, 0]
    ensures Bump([1, 0, 0], false) == [2, 0, 0]
    ensures Bump([1, 2, 1], false) == [1, 2, 2]
    ensures Bump([1, 2, 2], false) == [1, 2, 3]
    ensures Bump([1, 1, 0], false) == [1, 2, 0]
    ensures Bump(Bump([1, 1, 0], true), false) == [2, 0, 0]
  {
    BumpAt([1, 0, 0], 0, true);
    BumpAt([1, 2, 1], 2, true);
    BumpAt([1, 2, 2], 2, true);
    BumpAt([1, 1, 0], 1, true);
    BumpAt([1, 0, 0], 0, false);
    BumpAt([1, 2, 1], 2, false);
    BumpAt([1, 2, 2], 2, false);
    BumpAt([1, 1, 0], 1, false);
  }
}
