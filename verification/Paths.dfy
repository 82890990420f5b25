/** The path clean-up of _setpath in tools/libexword/src/main.c: runs of separators collapse in
    place, and every separator becomes a backslash. */
module Paths {
  const NUL: char := '\0'

  predicate IsSep(c: char) { c == '/' || c == '\\' }

  /** What the clean-up makes of a path. */
  function Normal(s: string): (r: string) {
    if s == "" then ""
    else if |s| > 1 && IsSep(s[0]) && IsSep(s[1]) then Normal(s[1..])
    else [if s[0] == '/' then '\\' else s[0]] + Normal(s[1..])
  }

  // ----- what a clean path is

  /** No forward separator, and no two separators side by side. */
  ghost predicate Clean(s: string) {
    '/' !in s && forall k :: 0 <= k < |s| - 1 ==> !(s[k] == '\\' && s[k + 1] == '\\')
  }

  lemma {:induction false} NormalIsClean(s: string)
    ensures Clean(Normal(s))
    ensures s != "" ==> Normal(s) != "" && (IsSep(Normal(s)[0]) <==> IsSep(s[0]))
  {
    if s != "" {
      NormalIsClean(s[1..]);
    }
  }

  lemma {:induction false} CleanIsNormal(s: string)
    requires Clean(s)
    ensures Normal(s) == s
  {
    if s != "" {
      assert Clean(s[1..]) by {
        assert forall k :: 0 <= k < |s[1..]| ==> s[1..][k] == s[k + 1];
      }
      CleanIsNormal(s[1..]);
      assert s == [s[0]] + s[1..];
    }
  }

  /** Cleaning up once is enough, and it changes exactly the paths that are not clean. */
  lemma NormalOnce(s: string)
    ensures Normal(Normal(s)) == Normal(s) && (Normal(s) == s <==> Clean(s))
  {
    NormalIsClean(s);
    CleanIsNormal(Normal(s));
    if Clean(s) {
      CleanIsNormal(s);
    }
  }

  /** How long the name at the front of a path is. */
  function NameLength(s: string): (n: nat)
    ensures n <= |s| && forall k :: 0 <= k < n ==> !IsSep(s[k])
    ensures n < |s| ==> IsSep(s[n])
  {
    if s == "" || IsSep(s[0]) then 0 else 1 + NameLength(s[1..])
  }

  /** The names on a path. */
  function Names(s: string): seq<string>
    decreases |s|
  {
    if s == "" then []
    else if IsSep(s[0]) then Names(s[1..])
    else [s[..NameLength(s)]] + Names(s[NameLength(s)..])
  }

  lemma {:induction false} NormalName(s: string, n: nat)
    requires n <= |s| && forall k :: 0 <= k < n ==> !IsSep(s[k])
    ensures Normal(s) == s[..n] + Normal(s[n..])
    decreases n
  {
    if n > 0 {
      NormalName(s[1..], n - 1);
      assert s[1..][n - 1..] == s[n..];
      assert s[..n] == [s[0]] + s[1..][..n - 1];
    }
  }

  lemma {:induction false} NameLengthIs(s: string, n: nat)
    requires n <= |s| && (forall k :: 0 <= k < n ==> !IsSep(s[k])) && (n < |s| ==> IsSep(s[n]))
    ensures NameLength(s) == n
  {
  }

  /** Two paths name the same thing: the same names in the same order, and they begin and end with
      separators alike. */
  ghost predicate Alike(s: string, r: string) {
    && Names(r) == Names(s) && (s == "" <==> r == "")
    && (s != "" && r != "" ==> IsSep(s[0]) == IsSep(r[0]) && IsSep(s[|s| - 1]) == IsSep(r[|r| - 1]))
  }

  /** The clean path names the same thing. */
  lemma {:induction false} NormalKeepsNames(s: string)
    ensures Alike(s, Normal(s))
    decreases |s|
  {
    if s == "" {
    } else if IsSep(s[0]) {
      NormalKeepsNames(s[1..]);
      SeparatorKept(s);
    } else {
      NormalKeepsNames(s[NameLength(s)..]);
      NameKept(s);
    }
  }

  lemma SeparatorKept(s: string)
    requires s != "" && IsSep(s[0]) && Alike(s[1..], Normal(s[1..]))
    ensures Alike(s, Normal(s))
  {
    hide Normal, Names;
    SeparatorSkipped(s);
    if |s| > 1 && IsSep(s[1]) {
      NormalSkips(s);
    } else {
      NormalStep(s);
      var r := Normal(s);
      SeparatorSkipped(r);
      assert r[1..] == Normal(s[1..]);
      assert s[1..] != "" ==> r[|r| - 1] == r[1..][|r| - 2];
    }
  }

  lemma SeparatorSkipped(s: string)
    requires s != "" && IsSep(s[0])
    ensures Names(s) == Names(s[1..])
  {
  }

  lemma NormalSkips(s: string)
    requires |s| > 1 && IsSep(s[0]) && IsSep(s[1])
    ensures Normal(s) == Normal(s[1..])
  {
  }

  lemma NameKept(s: string)
    requires s != "" && !IsSep(s[0]) && Alike(s[NameLength(s)..], Normal(s[NameLength(s)..]))
    ensures Alike(s, Normal(s))
  {
    hide Normal, Names, IsSep, NameLength;
    var r, n := Normal(s), NameLength(s);
    var t := s[n..];
    NormalName(s, n);
    FirstName(s);
    assert r[n..] == Normal(t) && r[..n] == s[..n];
    NameLengthIs(r, n);
    FirstName(r);
    if t == "" {
      assert r == s;
    } else {
      assert r[|r| - 1] == Normal(t)[|Normal(t)| - 1];
    }
  }

  lemma FirstName(s: string)
    requires s != "" && !IsSep(s[0])
    ensures NameLength(s) > 0 && Names(s) == [s[..NameLength(s)]] + Names(s[NameLength(s)..])
  {
  }

  lemma NormalOfNothing()
    ensures Normal("") == ""
  {
  }

  lemma NormalStep(s: string)
    requires s != "" && !(|s| > 1 && IsSep(s[0]) && IsSep(s[1]))
    ensures Normal(s) == [if s[0] == '/' then '\\' else s[0]] + Normal(s[1..])
  {
  }

  // ----- in place

  /** A terminated string of n characters at the front of an array. */
  ghost predicate Holds(a: array<char>, n: nat)
    reads a
  {
    n < a.Length && a[n] == NUL && forall k :: 0 <= k < n ==> a[k] != NUL
  }

  /** The inner loop: the rest of the string moves down over the character at p. */
  method DropAt(a: array<char>, p: nat, ghost n: nat)
    requires Holds(a, n) && p < n
    modifies a
    ensures Holds(a, n - 1) && a[..n - 1] == old(a[..p]) + old(a[p + 1..n])
  {
    var t := p;
    while a[t] != NUL
      invariant p <= t <= n
      invariant forall k :: 0 <= k < p ==> a[k] == old(a[k])
      invariant forall k :: p <= k < t ==> a[k] == old(a[k + 1])
      invariant forall k :: t <= k <= n ==> a[k] == old(a[k])
      decreases n - t
    {
      t := t + 1;
      a[t - 1] := a[t];
    }
  }

  /** The clean-up of a run of separators at p: all but the last go. */
  method CollapseAt(a: array<char>, p: nat, ghost n: nat) returns (ghost m: nat)
    requires Holds(a, n) && p < n
    modifies a
    ensures p < m <= n && Holds(a, m) && !(IsSep(a[p]) && IsSep(a[p + 1]))
    ensures a[..p] == old(a[..p]) && Normal(a[p..m]) == old(Normal(a[p..n]))
  {
    m := n;
    while IsSep(a[p]) && IsSep(a[p + 1])
      invariant p < m <= n && Holds(a, m)
      invariant a[..p] == old(a[..p]) && Normal(a[p..m]) == old(Normal(a[p..n]))
      decreases m - p
    {
      ghost var s, front := a[p..m], a[..p];
      DropAt(a, p, m);
      m := m - 1;
      assert a[p..m] == s[1..] && a[..p] == front;
    }
  }

  /** The clean-up loop. */
  method CleanPath(a: array<char>, ghost n: nat) returns (ghost m: nat)
    requires Holds(a, n)
    modifies a
    ensures Holds(a, m) && a[..m] == Normal(old(a[..n]))
  {
    hide Normal;
    var p := 0;
    m := n;
    assert a[..n] == a[0..n];
    NormalOfNothing();
    while a[p] != NUL
      invariant p <= m && Holds(a, m)
      invariant Normal(old(a[..n])) == a[..p] + Normal(a[p..m])
      decreases m - p
    {
      m := CollapseAt(a, p, m);
      ghost var s := a[p..m];
      NormalStep(s);
      Settle(a, p, m);
      p := p + 1;
      assert a[p..m] == s[1..];
    }
    assert a[p..m] == "";
  }

  /** The separator at p, if there is one, becomes a backslash. */
  method Settle(a: array<char>, p: nat, ghost m: nat)
    requires Holds(a, m) && p < m
    modifies a
    ensures Holds(a, m) && a[p + 1..m] == old(a[p + 1..m])
    ensures a[..p + 1] == old(a[..p]) + [if old(a[p]) == '/' then '\\' else old(a[p])]
  {
    if a[p] == '/' {
      a[p] := '\\';
    }
  }
}
