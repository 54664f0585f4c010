/** The few Python string built-ins the helper relies on:
    `str(n)`, `str.isdigit`, `int(s)`, `str.replace(old, "")`,
    and git's glob matching of ref names. */
module Text {

  predicate IsDigitChar(c: char) { '0' <= c <= '9' }

  function DigitChar(d: nat): (c: char)
    requires d < 10
    ensures IsDigitChar(c) && c as int - '0' as int == d
  {
    "0123456789"[d]
  }

  /** `str(n)` for a non-negative integer: decimal digits, without a
      leading zero. */
  function NatToString(n: nat): (s: string)
    ensures |s| >= 1
    ensures forall i :: 0 <= i < |s| ==> IsDigitChar(s[i])
    ensures |s| > 1 ==> s[0] != '0'
    decreases n
  {
    if n < 10 then [DigitChar(n)]
    else
      var init := NatToString(n / 10);
      assert (init + [DigitChar(n % 10)])[0] == init[0];
      init + [DigitChar(n % 10)]
  }

  /** `s.isdigit()` on ASCII text: non-empty and made of decimal digits only,
      so text holding a `-` or a `.` never passes. */
  predicate IsDigits(s: string)
    ensures IsDigits(s) ==> '-' !in s && '.' !in s
  {
    |s| > 0 && forall i :: 0 <= i < |s| ==> IsDigitChar(s[i])
  }

  function DigitOf(c: char): nat
    requires IsDigitChar(c)
  {
    c as int - '0' as int
  }

  /** `int(s)` for a string of decimal digits; it is 0 exactly when every
      digit is `0`. */
  function DigitsValue(s: string): (r: nat)
    requires forall i :: 0 <= i < |s| ==> IsDigitChar(s[i])
    ensures r == 0 <==> forall i :: 0 <= i < |s| ==> s[i] == '0'
    decreases |s|
  {
    if |s| == 0 then 0
    else
      var init := s[..|s| - 1];
      assert forall i :: 0 <= i < |init| ==> init[i] == s[i];
      DigitsValue(init) * 10 + DigitOf(s[|s| - 1])
  }

  /** `int(str(n)) == n`: rendering a number loses nothing. */
  lemma {:induction false} DigitsValueOfNatToString(n: nat)
    ensures DigitsValue(NatToString(n)) == n
    decreases n
  {
    if n >= 10 {
      var s := NatToString(n);
      var init := NatToString(n / 10);
      assert s == init + [DigitChar(n % 10)];
      assert s[..|s| - 1] == init;
      DigitsValueOfNatToString(n / 10);
    }
  }

  /** Distinct numbers render to distinct strings. */
  lemma NatToStringInjective(m: nat, n: nat)
    ensures NatToString(m) == NatToString(n) ==> m == n
  {
    DigitsValueOfNatToString(m);
    DigitsValueOfNatToString(n);
  }

  predicate HasPrefix(p: string, s: string) {
    |p| <= |s| && s[..|p|] == p
  }

  /** `s.replace(p, "")`: drops every non-overlapping occurrence of `p`,
      scanning left to right. */
  function RemoveAll(s: string, p: string): (r: string)
    requires |p| > 0
    ensures |r| <= |s|
    ensures forall i :: 0 <= i < |r| ==> r[i] in s
    decreases |s|
  {
    if |s| < |p| then s
    else if s[..|p|] == p then RemoveAll(s[|p|..], p)
    else [s[0]] + RemoveAll(s[1..], p)
  }

  /** A string that lacks one of the characters of `p` has no occurrence of `p`,
      so `replace` returns it unchanged. */
  lemma {:induction false} RemoveAllAbsent(s: string, p: string, c: char)
    requires |p| > 0 && c in p && c !in s
    ensures RemoveAll(s, p) == s
    decreases |s|
  {
    if |s| >= |p| {
      assert s == [s[0]] + s[1..];
      RemoveAllAbsent(s[1..], p, c);
    }
  }

  /** Glob matching as `git tag -l` and `git branch --list` apply it, with
      `*` matching any run of characters (the only wildcard the helper uses).
      A pattern without `*` matches only itself. */
  predicate Glob(p: string, s: string)
    ensures Glob(p, s) && '*' !in p ==> s == p
    decreases |p| + |s|
  {
    if |p| == 0 then |s| == 0
    else
      assert '*' !in p && |s| > 0 ==> '*' !in p[1..] && p == [p[0]] + p[1..] && s == [s[0]] + s[1..];
      if p[0] == '*' then Glob(p[1..], s) || (|s| > 0 && Glob(p, s[1..]))
      else |s| > 0 && s[0] == p[0] && Glob(p[1..], s[1..])
  }

  /** A pattern without `*` matches exactly itself. */
  lemma {:induction false} GlobLiteral(p: string, s: string)
    requires '*' !in p
    ensures Glob(p, s) <==> s == p
    decreases |p|
  {
    if |p| > 0 && |s| > 0 {
      GlobLiteral(p[1..], s[1..]);
      if s[0] == p[0] && s[1..] == p[1..] {
        assert s == [s[0]] + s[1..] && p == [p[0]] + p[1..];
      }
    }
  }

  lemma {:induction false} GlobStarAll(s: string)
    ensures Glob("*", s)
    decreases |s|
  {
    if |s| > 0 {
      GlobStarAll(s[1..]);
    }
  }

  /** A pattern `p*` with no other wildcard matches exactly the names that
      start with `p`. */
  lemma {:induction false} GlobPrefix(p: string, s: string)
    requires '*' !in p
    ensures Glob(p + "*", s) <==> HasPrefix(p, s)
    decreases |p|
  {
    if |p| == 0 {
      assert p + "*" == "*";
      GlobStarAll(s);
    } else {
      assert (p + "*")[0] == p[0];
      assert (p + "*")[1..] == p[1..] + "*";
      if |s| > 0 {
        GlobPrefix(p[1..], s[1..]);
        if HasPrefix(p, s) {
          assert s[1..][..|p| - 1] == s[..|p|][1..];
        }
        if s[0] == p[0] && HasPrefix(p[1..], s[1..]) {
          assert s[..|p|] == [s[0]] + s[1..][..|p| - 1];
        }
      }
    }
  }

  /** Splitting at the first occurrence of a separator is unique. */
  lemma SplitAtFirst(x: string, y: string, x': string, y': string, c: char)
    requires c !in x && c !in x'
    requires x + [c] + y == x' + [c] + y'
    ensures x == x' && y == y'
  {
    var s := x + [c] + y;
    assert s[|x|] == c && s[|x'|] == c;
    assert forall k :: 0 <= k < |x| ==> s[k] == x[k];
    assert forall k :: 0 <= k < |x'| ==> s[k] == x'[k];
    assert x == s[..|x|] == x';
    assert y == s[|x| + 1..] == y';
  }
}
