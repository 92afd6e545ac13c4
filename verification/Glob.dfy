/** The wildcard prefix matcher of the rewrite rules, rule scopes, and the redirect lookup built on them. */
module Glob {
  import opened Wrappers

  // ---- What a pattern means ----

  /** No '/' among s[j..k]. */
  ghost predicate Clear(s: string, j: nat, k: nat)
    requires k <= |s|
  {
    forall q | j <= q < k :: s[q] != '/'
  }

  /** The pattern from index `i` on accounts for exactly s[j..n]: a `*` takes a run without '/', any other
      character takes itself. */
  ghost predicate At(p: string, s: string, i: nat, j: nat, n: nat)
    requires i <= |p|
    decreases |p| - i
  {
    && j <= n <= |s|
    && if i == |p| then n == j
       else if p[i] == '*' then exists k :: j <= k <= n && Clear(s, j, k) && At(p, s, i + 1, k, n)
       else j < n && s[j] == p[i] && At(p, s, i + 1, j + 1, n)
  }

  /** The whole pattern accounts for exactly the first `n` characters of `s`. */
  ghost predicate Takes(p: string, s: string, n: nat) {
    At(p, s, 0, 0, n)
  }

  /** `n` is the length of the shortest prefix of `s` that the pattern accounts for. */
  ghost predicate Shortest(p: string, s: string, n: nat) {
    Takes(p, s, n) && forall m: nat | Takes(p, s, m) :: n <= m
  }

  /** The matcher's answer: some prefix matches, except that an empty pattern matches only the empty string. */
  ghost predicate Accepts(p: string, s: string) {
    (p != "" || s == "") && exists n: nat :: Takes(p, s, n)
  }

  // ---- A pattern is a text with gaps ----

  /** The pattern with these runs in the place of its stars, in order. */
  function Fill(p: string, runs: seq<string>): string {
    if p == "" then ""
    else if p[0] != '*' then [p[0]] + Fill(p[1..], runs)
    else if runs == [] then Fill(p[1..], [])
    else runs[0] + Fill(p[1..], runs[1..])
  }

  /** The text is the pattern with runs without '/' in the place of its stars. */
  ghost predicate FillsTo(p: string, runs: seq<string>, t: string) {
    (forall r <- runs :: '/' !in r) && Fill(p, runs) == t
  }

  /** What a pattern takes is what its stars can be filled to. */
  lemma TakesWhatItFillsTo(p: string, s: string, n: nat)
    ensures Takes(p, s, n) <==> n <= |s| && exists runs :: FillsTo(p, runs, s[..n])
  {
    assert p[0..] == p;
    if Takes(p, s, n) {
      var runs := RunsOf(p, s, 0, 0, n);
      assert s[0..n] == s[..n];
    }
    if n <= |s| && exists runs :: FillsTo(p, runs, s[..n]) {
      var runs :| FillsTo(p, runs, s[..n]);
      assert s[0..n] == s[..n];
      AtFilled(p, s, 0, 0, n, runs);
    }
  }

  lemma {:induction false} RunsOf(p: string, s: string, i: nat, j: nat, n: nat) returns (runs: seq<string>)
    requires i <= |p| && At(p, s, i, j, n)
    ensures n <= |s| && j <= n && FillsTo(p[i..], runs, s[j..n])
    decreases |p| - i
  {
    runs := [];
    if i < |p| {
      assert p[i..][1..] == p[i + 1..];
      if p[i] == '*' {
        var k :| j <= k <= n && Clear(s, j, k) && At(p, s, i + 1, k, n);
        runs := RunsOf(p, s, i + 1, k, n);
        runs := [s[j..k]] + runs;
        assert runs[1..] == runs[1..] && s[j..k] + s[k..n] == s[j..n];
      } else {
        runs := RunsOf(p, s, i + 1, j + 1, n);
        assert [s[j]] + s[j + 1..n] == s[j..n];
      }
    }
  }

  lemma {:induction false} AtFilled(p: string, s: string, i: nat, j: nat, n: nat, runs: seq<string>)
    requires i <= |p| && j <= n <= |s| && FillsTo(p[i..], runs, s[j..n])
    ensures At(p, s, i, j, n)
    decreases |p| - i
  {
    if i < |p| {
      assert p[i..][1..] == p[i + 1..];
      if p[i] != '*' {
        assert s[j..n][1..] == s[j + 1..n] && s[j] == s[j..n][0];
        AtFilled(p, s, i + 1, j + 1, n, runs);
      } else if runs == [] {
        AtFilled(p, s, i + 1, j, n, []);
        assert Clear(s, j, j);
      } else {
        var k := j + |runs[0]|;
        assert s[j..n][..k - j] == runs[0] == s[j..k] && s[j..n][k - j..] == s[k..n];
        assert forall q | j <= q < k :: s[q] == runs[0][q - j] && s[q] in runs[0];
        AtFilled(p, s, i + 1, k, n, runs[1..]);
        assert Clear(s, j, k);
      }
    }
  }

  // ---- Literal stretches ----

  /** p[i..i+m] has no star and equals s[j..j+m]. */
  ghost predicate Literal(p: string, s: string, i: nat, j: nat, m: nat) {
    && i + m <= |p| && j + m <= |s|
    && forall q | i <= q < i + m :: p[q] != '*' && s[j + q - i] == p[q]
  }

  ghost predicate NoStar(p: string, i: nat, m: nat) {
    i + m <= |p| && forall q | i <= q < i + m :: p[q] != '*'
  }

  lemma {:induction false} SkipLiteral(p: string, s: string, i: nat, j: nat, m: nat, n: nat)
    requires NoStar(p, i, m)
    ensures At(p, s, i, j, n) <==> Literal(p, s, i, j, m) && At(p, s, i + m, j + m, n)
    decreases m
  {
    if m > 0 {
      SkipLiteral(p, s, i + 1, j + 1, m - 1, n);
      if Literal(p, s, i, j, m) {
        assert s[j + i - i] == p[i];
        assert Literal(p, s, i + 1, j + 1, m - 1) by {
          forall q | i + 1 <= q < i + m
            ensures s[j + 1 + q - (i + 1)] == p[q]
          {
            assert s[j + q - i] == p[q];
          }
        }
      }
      if At(p, s, i, j, n) {
        forall q | i <= q < i + m
          ensures s[j + q - i] == p[q]
        {
          if q > i { assert s[j + 1 + q - (i + 1)] == p[q]; }
        }
      }
    }
  }

  /** A star followed by the literal p[i+1..i+1+m] takes a clear run up to some place where the literal matches. */
  lemma StarThenLiteral(p: string, s: string, i: nat, j: nat, m: nat, n: nat)
    requires i < |p| && p[i] == '*' && NoStar(p, i + 1, m)
    ensures At(p, s, i, j, n) <==>
            exists k :: j <= k <= n <= |s| && Clear(s, j, k) && Literal(p, s, i + 1, k, m)
              && At(p, s, i + 1 + m, k + m, n)
  {
    if At(p, s, i, j, n) {
      var k :| j <= k <= n && Clear(s, j, k) && At(p, s, i + 1, k, n);
      SkipLiteral(p, s, i + 1, k, m, n);
    }
    if k :| j <= k <= n <= |s| && Clear(s, j, k) && Literal(p, s, i + 1, k, m) && At(p, s, i + 1 + m, k + m, n) {
      SkipLiteral(p, s, i + 1, k, m, n);
    }
  }

  // ---- Why only the last star is ever backtracked ----

  /** If a literal matches at `j` and again at `k`, with no '/' in between, then its own stretch at `k` adds no
      '/' beyond those already passed at `j`. */
  lemma NoSlashBetween(p: string, s: string, i: nat, j: nat, k: nat, m: nat)
    requires Literal(p, s, i, j, m) && Literal(p, s, i, k, m) && j < k && Clear(s, j, k)
    ensures Clear(s, j + m, k + m)
  {
    if !Clear(s, j + m, k + m) {
      var q :| j + m <= q < k + m && s[q] == '/';
      assert p[i + q - k] == '/' by { assert s[k + (i + q - k) - i] == p[i + q - k]; }
      var off := FirstSlash(p, i, q - k);
      SlashBefore(p, s, i, j, k, m, off);
      assert false;
    }
  }

  /** A '/' of the literal lies at or after `k` when matched at `j`, so the literal has another '/' before it. */
  lemma SlashBefore(p: string, s: string, i: nat, j: nat, k: nat, m: nat, off: nat)
    requires Literal(p, s, i, j, m) && Literal(p, s, i, k, m) && j < k && Clear(s, j, k)
    requires off < m && p[i + off] == '/'
    ensures 0 <= j + off - k < off && p[i + (j + off - k)] == '/'
  {
    assert s[j + (i + off) - i] == '/';
    assert s[k + (i + (j + off - k)) - i] == p[i + (j + off - k)];
  }

  lemma FirstSlash(p: string, i: nat, d: nat) returns (off: nat)
    requires i + d < |p| && p[i + d] == '/'
    ensures off <= d && p[i + off] == '/' && forall q | i <= q < i + off :: p[q] != '/'
    decreases d
  {
    if q :| i <= q < i + d && p[q] == '/' {
      off := FirstSlash(p, i, q - i);
    } else {
      off := d;
    }
  }

  /** Once the literal after a star has been found at `j` and another star follows, the first star is settled:
      moving it further could not reach anything the second star cannot reach from here. */
  lemma Commit(p: string, s: string, i: nat, j: nat, m: nat, n: nat)
    requires i + 1 + m < |p| && p[i] == '*' && p[i + 1 + m] == '*' && Literal(p, s, i + 1, j, m)
    ensures At(p, s, i, j, n) <==> At(p, s, i + 1 + m, j + m, n)
  {
    StarThenLiteral(p, s, i, j, m, n);
    if At(p, s, i, j, n) {
      var k :| j <= k <= n <= |s| && Clear(s, j, k) && Literal(p, s, i + 1, k, m) && At(p, s, i + 1 + m, k + m, n);
      var k2 :| k + m <= k2 <= n && Clear(s, k + m, k2) && At(p, s, i + 2 + m, k2, n);
      if j < k { NoSlashBetween(p, s, i + 1, j, k, m); }
      assert Clear(s, j + m, k2);
    }
    if At(p, s, i + 1 + m, j + m, n) {
      assert Clear(s, j, j);
    }
  }

  /** The literal after the star, extended by one more character, does not match at `j`: the star takes s[j]. */
  lemma Advance(p: string, s: string, i: nat, j: nat, m: nat, n: nat)
    requires i + 1 + m < |p| && p[i] == '*' && NoStar(p, i + 1, m + 1) && j < |s| && !Literal(p, s, i + 1, j, m + 1)
    ensures At(p, s, i, j, n) <==> s[j] != '/' && At(p, s, i, j + 1, n)
  {
    hide At;
    StarThenLiteral(p, s, i, j, m + 1, n);
    StarThenLiteral(p, s, i, j + 1, m + 1, n);
    if At(p, s, i, j, n) {
      var k :| j <= k <= n <= |s| && Clear(s, j, k) && Literal(p, s, i + 1, k, m + 1)
          && At(p, s, i + 2 + m, k + m + 1, n);
      assert Clear(s, j + 1, k);
    }
    if s[j] != '/' && At(p, s, i, j + 1, n) {
      var k :| j + 1 <= k <= n <= |s| && Clear(s, j + 1, k) && Literal(p, s, i + 1, k, m + 1)
          && At(p, s, i + 2 + m, k + m + 1, n);
      assert Clear(s, j, k);
    }
  }

  // ---- Running out of pattern, or of string ----

  /** The characters of p[i..] that are not stars. */
  ghost function Literals(p: string, i: nat): nat
    requires i <= |p|
    decreases |p| - i
  {
    if i == |p| then 0 else (if p[i] == '*' then 0 else 1) + Literals(p, i + 1)
  }

  lemma {:induction false} NeedsLiterals(p: string, s: string, i: nat, j: nat, n: nat)
    requires i <= |p| && At(p, s, i, j, n)
    ensures n - j >= Literals(p, i)
    decreases |p| - i
  {
    if i < |p| {
      if p[i] == '*' {
        var k :| j <= k <= n && Clear(s, j, k) && At(p, s, i + 1, k, n);
        NeedsLiterals(p, s, i + 1, k, n);
      } else {
        NeedsLiterals(p, s, i + 1, j + 1, n);
      }
    }
  }

  lemma {:induction false} LiteralsOf(p: string, i: nat, m: nat)
    requires NoStar(p, i, m)
    ensures Literals(p, i) == m + Literals(p, i + m)
    decreases m
  {
    if m > 0 { LiteralsOf(p, i + 1, m - 1); }
  }

  lemma {:induction false} SkipStars(p: string, s: string, i: nat, k: nat, n: nat)
    requires i <= k <= |p| && n <= |s| && forall q | i <= q < k :: p[q] == '*'
    ensures Literals(p, i) == Literals(p, k)
    ensures k == |p| ==> At(p, s, i, n, n)
    decreases k - i
  {
    if i < k {
      SkipStars(p, s, i + 1, k, n);
      assert Clear(s, n, n);
    }
  }

  // ---- The matcher ----

  /** What the loop knows: the answers from the start are the answers from the last star, whose text so far
      matched; or, before any star, from the current place. */
  ghost predicate Known(p: string, s: string, starred: bool, star: nat, sp: nat, i: nat, j: nat) {
    && i <= |p| && j <= |s|
    && if starred then
         && 0 < star <= i && p[star - 1] == '*' && sp <= j && j - sp == i - star && Literal(p, s, star, sp, i - star)
         && (forall n: nat :: At(p, s, 0, 0, n) <==> At(p, s, star - 1, sp, n))
       else
         && i == j && (forall n: nat :: At(p, s, 0, 0, n) <==> At(p, s, i, j, n))
  }

  lemma KnownStar(p: string, s: string, starred: bool, star: nat, sp: nat, i: nat, j: nat)
    requires Known(p, s, starred, star, sp, i, j) && i < |p| && p[i] == '*'
    ensures Known(p, s, true, i + 1, j, i + 1, j)
  {
    forall n: nat
      ensures At(p, s, 0, 0, n) <==> At(p, s, i, j, n)
    {
      if starred { Commit(p, s, star - 1, sp, i - star, n); }
    }
  }

  lemma KnownSame(p: string, s: string, starred: bool, star: nat, sp: nat, i: nat, j: nat)
    requires Known(p, s, starred, star, sp, i, j) && i < |p| && j < |s| && p[i] != '*' && p[i] == s[j]
    ensures Known(p, s, starred, star, sp, i + 1, j + 1)
  {
  }

  lemma KnownRetry(p: string, s: string, star: nat, sp: nat, i: nat, j: nat)
    requires Known(p, s, true, star, sp, i, j) && i < |p| && j < |s| && p[i] != '*' && p[i] != s[j] && s[sp] != '/'
    ensures Known(p, s, true, star, sp + 1, star, sp + 1)
  {
    var a, next := star - 1, sp + 1;
    assert sp + i - star == j;
    forall n: nat
      ensures At(p, s, 0, 0, n) <==> At(p, s, a, next, n)
    {
      Advance(p, s, a, sp, i - star, n);
    }
  }

  lemma KnownFail(p: string, s: string, starred: bool, star: nat, sp: nat, i: nat, j: nat)
    requires Known(p, s, starred, star, sp, i, j) && i < |p| && j < |s| && p[i] != '*' && p[i] != s[j]
    requires starred ==> s[sp] == '/'
    ensures forall n: nat :: !Takes(p, s, n)
  {
    forall n: nat
      ensures !At(p, s, 0, 0, n)
    {
      if starred {
        assert sp + i - star == j;
        Advance(p, s, star - 1, sp, i - star, n);
      }
    }
  }

  lemma KnownDone(p: string, s: string, starred: bool, star: nat, sp: nat, j: nat)
    requires Known(p, s, starred, star, sp, |p|, j)
    ensures Shortest(p, s, j)
  {
    if starred {
      assert At(p, s, star - 1, sp, j) by {
        StarThenLiteral(p, s, star - 1, sp, |p| - star, j);
        assert Clear(s, sp, sp);
      }
      forall m: nat | Takes(p, s, m)
        ensures j <= m
      {
        NeedsLiterals(p, s, star - 1, sp, m);
        LiteralsOf(p, star, |p| - star);
      }
    }
  }

  /** The string is used up: whatever is left of the pattern must be stars. */
  lemma KnownEnd(p: string, s: string, starred: bool, star: nat, sp: nat, i: nat, k: nat)
    requires Known(p, s, starred, star, sp, i, |s|) && i <= k <= |p|
    requires (forall q | i <= q < k :: p[q] == '*') && (k < |p| ==> p[k] != '*')
    ensures if k == |p| then Shortest(p, s, |s|) else forall n: nat :: !Takes(p, s, n)
  {
    SkipStars(p, s, i, k, |s|);
    var m := if starred then i - star else 0;
    if starred { LiteralsOf(p, star, m); }
    forall n: nat | Takes(p, s, n)
      ensures k == |p| && n == |s|
    {
      if starred {
        NeedsLiterals(p, s, star - 1, sp, n);
      } else {
        NeedsLiterals(p, s, i, |s|, n);
      }
    }
    if k == |p| && starred {
      StarThenLiteral(p, s, star - 1, sp, m, |s|);
      assert Clear(s, sp, sp);
    }
  }

  /** Decides `Accepts`, and on success yields the length of the shortest prefix the pattern accounts for. */
  method GlobPrefix(pattern: string, s: string) returns (ok: bool, consumed: nat)
    ensures ok <==> Accepts(pattern, s)
    ensures ok ==> Shortest(pattern, s, consumed)
  {
    var i, j := 0, 0;
    var starred, star, sp := false, 0, 0;
    consumed := 0;
    while j < |s|
      invariant Known(pattern, s, starred, star, sp, i, j)
      invariant pattern == "" ==> i == 0 && j == 0
      invariant pattern != "" ==> i < |pattern|
      decreases |s| - (if starred then sp else 0), |pattern| - (if starred then star else 0), |pattern| - i
    {
      if i < |pattern| && pattern[i] == '*' {
        KnownStar(pattern, s, starred, star, sp, i, j);
        i := i + 1;
        starred, star, sp := true, i, j;
      } else if i < |pattern| && pattern[i] == s[j] {
        KnownSame(pattern, s, starred, star, sp, i, j);
        i, j := i + 1, j + 1;
      } else if starred && s[sp] != '/' {
        KnownRetry(pattern, s, star, sp, i, j);
        sp := sp + 1;
        i, j := star, sp;
      } else {
        if pattern != "" { KnownFail(pattern, s, starred, star, sp, i, j); }
        return false, 0;
      }
      if i == |pattern| {
        KnownDone(pattern, s, starred, star, sp, j);
        return true, j;
      }
    }
    ghost var i0 := i;
    while i < |pattern| && pattern[i] == '*'
      invariant i0 <= i <= |pattern|
      invariant forall q | i0 <= q < i :: pattern[q] == '*'
    {
      i := i + 1;
    }
    KnownEnd(pattern, s, starred, star, sp, i0, i);
    return i == |pattern|, j;
  }

  /** A star never leaves its path segment: the text taken has exactly as many '/' as the pattern. */
  lemma {:induction false} SlashesAreThePatterns(p: string, s: string, i: nat, j: nat, n: nat)
    requires i <= |p| && At(p, s, i, j, n)
    ensures Slashes(s[j..n]) == Slashes(p[i..])
    decreases |p| - i
  {
    if i < |p| {
      assert p[i..] == [p[i]] + p[i + 1..];
      SlashesConcat([p[i]], p[i + 1..]);
      if p[i] == '*' {
        var k :| j <= k <= n && Clear(s, j, k) && At(p, s, i + 1, k, n);
        SlashesAreThePatterns(p, s, i + 1, k, n);
        assert s[j..n] == s[j..k] + s[k..n];
        SlashesConcat(s[j..k], s[k..n]);
        NoSlashes(s[j..k]);
      } else {
        SlashesAreThePatterns(p, s, i + 1, j + 1, n);
        assert s[j..n] == [s[j]] + s[j + 1..n];
        SlashesConcat([s[j]], s[j + 1..n]);
      }
    }
  }

  ghost function Slashes(s: string): nat {
    if s == "" then 0 else (if s[0] == '/' then 1 else 0) + Slashes(s[1..])
  }

  lemma {:induction false} SlashesConcat(a: string, b: string)
    ensures Slashes(a + b) == Slashes(a) + Slashes(b)
  {
    if a == "" {
      assert a + b == b;
    } else {
      assert (a + b)[1..] == a[1..] + b;
      SlashesConcat(a[1..], b);
    }
  }

  lemma {:induction false} NoSlashes(s: string)
    requires forall q | 0 <= q < |s| :: s[q] != '/'
    ensures Slashes(s) == 0
  {
    if s != "" { NoSlashes(s[1..]); }
  }

  // ---- Scopes ----

  /** Who is asking: the app and executable names of the process, and of the process it works for. */
  datatype Identity = Identity(app: string, exe: string, respApp: string, respExe: string)

  predicate IsBlank(c: char) { c == ' ' || c == '\t' }

  /** The token without blanks at either end. */
  function Trim(t: string): string {
    if t != "" && IsBlank(t[0]) then Trim(t[1..])
    else if t != "" && IsBlank(t[|t| - 1]) then Trim(t[..|t| - 1])
    else t
  }

  /** "Foo.app" and "Foo" name the same app. */
  function Bare(t: string): string {
    if |t| > 4 && t[|t| - 4..] == ".app" then t[..|t| - 4] else t
  }

  /** A token admits everybody if it is "*", or the process whose app or executable it names. */
  predicate Admits(t: string, id: Identity) {
    || t == "*"
    || (&& 0 < |Bare(t)| < 256
        && (Bare(t) == id.app || Bare(t) == id.exe || Bare(t) == id.respApp || Bare(t) == id.respExe))
  }

  /** scope[a..b] is one of the comma-separated entries of the scope. */
  ghost predicate IsEntry(scope: string, a: nat, b: nat) {
    && a <= b <= |scope|
    && (a == 0 || scope[a - 1] == ',') && (b == |scope| || scope[b] == ',')
    && forall q | a <= q < b :: scope[q] != ','
  }

  ghost predicate InScope(scope: string, id: Identity) {
    exists a: nat, b: nat :: IsEntry(scope, a, b) && Admits(Trim(scope[a..b]), id)
  }

  lemma {:induction false} TrimLeft(t: string, p: nat)
    requires p <= |t| && forall q | 0 <= q < p :: IsBlank(t[q])
    ensures Trim(t) == Trim(t[p..])
    decreases p
  {
    if p > 0 {
      TrimLeft(t[1..], p - 1);
      assert t[1..][p - 1..] == t[p..];
    } else {
      assert t[0..] == t;
    }
  }

  lemma {:induction false} TrimRight(t: string, e: nat)
    requires e <= |t| && (e > 0 ==> !IsBlank(t[0])) && forall q | e <= q < |t| :: IsBlank(t[q])
    requires e > 0 ==> !IsBlank(t[e - 1])
    ensures Trim(t) == t[..e]
    decreases |t|
  {
    if e < |t| {
      if IsBlank(t[0]) {
        TrimLeft(t, |t|);
        assert t[..0] == "" == t[|t|..];
      } else {
        var u := t[..|t| - 1];
        TrimRight(u, e);
        assert u[..e] == t[..e];
      }
    } else {
      assert t[..e] == t;
    }
  }

  /** No entry that starts before `p` admits the process. */
  ghost predicate NoneBefore(scope: string, id: Identity, p: nat) {
    forall a: nat, b: nat | IsEntry(scope, a, b) && a < p :: !Admits(Trim(scope[a..b]), id)
  }

  lemma TokenIsTrimmed(scope: string, start: nat, p: nat, e: nat, end: nat)
    requires start <= p <= e <= end <= |scope|
    requires (forall q | start <= q < p :: IsBlank(scope[q])) && (forall q | e <= q < end :: IsBlank(scope[q]))
    requires p < e ==> !IsBlank(scope[p]) && !IsBlank(scope[e - 1])
    ensures scope[p..e] == Trim(scope[start..end])
  {
    TrimLeft(scope[start..end], p - start);
    assert scope[start..end][p - start..] == scope[p..end];
    TrimRight(scope[p..end], e - p);
    assert scope[p..end][..e - p] == scope[p..e];
  }

  /** Past one entry: the next one starts after its comma. */
  lemma EntryPassed(scope: string, id: Identity, start: nat, end: nat)
    requires IsEntry(scope, start, end) && NoneBefore(scope, id, start) && !Admits(Trim(scope[start..end]), id)
    ensures NoneBefore(scope, id, end + 1)
  {
    forall a: nat, b: nat | IsEntry(scope, a, b) && a < end + 1
      ensures !Admits(Trim(scope[a..b]), id)
    {
      assert a > 0 ==> scope[a - 1] == ',';
      assert b < |scope| ==> scope[b] == ',';
      assert end < |scope| ==> scope[end] == ',';
    }
  }

  /** Whether some entry of the comma-separated scope admits the process. */
  method ScopeMatches(scope: string, id: Identity) returns (ok: bool)
    ensures ok <==> InScope(scope, id)
  {
    var p := 0;
    while p < |scope|
      invariant p <= |scope| && (p == 0 || scope[p - 1] == ',' || p == |scope|)
      invariant NoneBefore(scope, id, p) && (p == |scope| > 0 && scope[p - 1] != ',' ==> NoneBefore(scope, id, p + 1))
      decreases |scope| - p
    {
      ghost var start := p;
      var end := p;
      while end < |scope| && scope[end] != ','
        invariant p <= end <= |scope| && forall q | p <= q < end :: scope[q] != ','
      {
        end := end + 1;
      }
      var tokEnd := end;
      while p < tokEnd && IsBlank(scope[p])
        invariant start <= p <= tokEnd && forall q | start <= q < p :: IsBlank(scope[q])
      {
        p := p + 1;
      }
      while tokEnd > p && IsBlank(scope[tokEnd - 1])
        invariant p <= tokEnd <= end && forall q | tokEnd <= q < end :: IsBlank(scope[q])
        invariant p < tokEnd ==> !IsBlank(scope[p])
      {
        tokEnd := tokEnd - 1;
      }
      TokenIsTrimmed(scope, start, p, tokEnd, end);
      if Admits(scope[p..tokEnd], id) {
        return true;
      }
      EntryPassed(scope, id, start, end);
      p := if end < |scope| then end + 1 else end;
    }
    assert forall a: nat, b: nat | IsEntry(scope, a, b) && a == |scope| :: Trim(scope[a..b]) == "";
    return false;
  }

  // ---- A scope is a list of names ----

  predicate Blanks(t: string) { forall c <- t :: c == ' ' || c == '\t' }

  /** The core of an entry, with blanks before and after it. */
  ghost predicate Core(entry: string, before: string, core: string, after: string) {
    && entry == before + core + after && Blanks(before) && Blanks(after)
    && (core != "" ==> core[0] != ' ' && core[0] != '\t' && core[|core| - 1] != ' ' && core[|core| - 1] != '\t')
  }

  /** A star, or a name of the process, to which ".app" may be and, if it ends so itself, must be added. */
  ghost predicate Names(core: string, id: Identity) {
    || core == "*"
    || exists w <- [id.app, id.exe, id.respApp, id.respExe] ::
         && 0 < |w| < 256
         && (core == w + ".app" || (core == w && !(|w| > 4 && w[|w| - 4..] == ".app")))
  }

  lemma AdmitsNames(t: string, id: Identity)
    ensures Admits(t, id) <==> Names(t, id)
  {
    var all := [id.app, id.exe, id.respApp, id.respExe];
    forall w <- all
      ensures Bare(t) == w && w != "" <==>
              w != "" && (t == w + ".app" || (t == w && !(|w| > 4 && w[|w| - 4..] == ".app")))
    {
      if |t| > 4 && t[|t| - 4..] == ".app" {
        assert t == t[..|t| - 4] + ".app";
      }
      if t == w + ".app" {
        assert t[|t| - 4..] == ".app" && t[..|t| - 4] == w;
      }
    }
    assert all[0] == id.app && all[1] == id.exe && all[2] == id.respApp && all[3] == id.respExe;
  }

  lemma CoreIsTrimmed(entry: string, before: string, core: string, after: string)
    requires Core(entry, before, core, after)
    ensures Trim(entry) == core
  {
    var rest := core + after;
    assert forall q | 0 <= q < |before| :: entry[q] == before[q] && before[q] in before;
    assert entry[|before|..] == rest;
    assert forall q | |core| <= q < |rest| :: rest[q] == after[q - |core|] && after[q - |core|] in after;
    hide Trim;
    TrimLeft(entry, |before|);
    TrimRight(rest, |core|);
    assert rest[..|core|] == core;
  }

  lemma {:induction false} TrimHasCore(entry: string) returns (before: string, after: string)
    ensures Core(entry, before, Trim(entry), after)
    decreases |entry|
  {
    before, after := "", "";
    if entry != "" && IsBlank(entry[0]) {
      before, after := TrimHasCore(entry[1..]);
      assert entry == [entry[0]] + entry[1..];
      before := [entry[0]] + before;
    } else if entry != "" && IsBlank(entry[|entry| - 1]) {
      before, after := TrimHasCore(entry[..|entry| - 1]);
      assert entry == entry[..|entry| - 1] + [entry[|entry| - 1]];
      after := after + [entry[|entry| - 1]];
    } else {
      assert entry == "" + entry + "";
    }
  }

  /** The entries with a comma between any two. */
  function Join(entries: seq<string>): string
    requires entries != []
  {
    if |entries| == 1 then entries[0] else entries[0] + "," + Join(entries[1..])
  }

  ghost predicate Listed(entries: seq<string>, id: Identity) {
    exists i, before, core, after | 0 <= i < |entries| :: Core(entries[i], before, core, after) && Names(core, id)
  }

  /** A scope admits a process if and only if one of its entries, apart from blanks at its ends, names it. */
  lemma {:induction false} ScopeIsList(entries: seq<string>, id: Identity)
    requires entries != [] && forall e <- entries :: ',' !in e
    ensures InScope(Join(entries), id) <==> Listed(entries, id)
    decreases |entries|
  {
    hide InScope, Trim, Names, Admits, Core;
    var e, rest := entries[0], entries[1..];
    EntryAdmits(e, id);
    if rest == [] {
      OnlyEntry(e, id);
      assert entries == [e];
    } else {
      assert forall e <- rest :: e in entries;
      ScopeIsList(rest, id);
      FirstEntry(e, Join(rest), id);
      ListedLonger(e, rest, id);
      assert entries == [e] + rest;
    }
  }

  ghost predicate EntryNames(e: string, id: Identity) {
    exists before, core, after :: Core(e, before, core, after) && Names(core, id)
  }

  lemma EntryAdmits(e: string, id: Identity)
    ensures Admits(Trim(e), id) <==> EntryNames(e, id)
  {
    hide Trim, Names, Admits, Core;
    var b, a := TrimHasCore(e);
    AdmitsNames(Trim(e), id);
    if before, core, after :| Core(e, before, core, after) && Names(core, id) {
      CoreIsTrimmed(e, before, core, after);
    }
  }

  lemma ListedLonger(e: string, rest: seq<string>, id: Identity)
    ensures Listed([e], id) <==> EntryNames(e, id)
    ensures Listed([e] + rest, id) <==> EntryNames(e, id) || Listed(rest, id)
  {
    hide Core, Names;
    var all := [e] + rest;
    if i, before, core, after :| 0 <= i < |rest| && Core(rest[i], before, core, after) && Names(core, id) {
      assert all[i + 1] == rest[i];
    }
    if EntryNames(e, id) {
      var before, core, after :| Core(e, before, core, after) && Names(core, id);
      assert all[0] == [e][0] == e;
    }
  }

  lemma OnlyEntry(e: string, id: Identity)
    requires ',' !in e
    ensures InScope(e, id) <==> Admits(Trim(e), id)
  {
    hide Trim, Admits;
    assert forall q | 0 <= q < |e| :: e[q] in e;
    assert e[0..|e|] == e && IsEntry(e, 0, |e|);
    assert forall a: nat, b: nat | IsEntry(e, a, b) :: e[a..b] == e;
  }

  lemma FirstEntry(e: string, r: string, id: Identity)
    requires ',' !in e
    ensures InScope(e + "," + r, id) <==> Admits(Trim(e), id) || InScope(r, id)
  {
    hide Trim, Admits;
    var s, n := e + "," + r, |e| + 1;
    assert forall q | 0 <= q < |e| :: s[q] == e[q] && e[q] in e;
    assert forall q | 0 <= q < |r| :: r[q] == s[q + n];
    assert s[|e|] == ',';
    assert s[0..|e|] == e && IsEntry(s, 0, |e|);
    forall a: nat, b: nat | IsEntry(s, a, b)
      ensures (a == 0 && s[a..b] == e) || (a >= n && IsEntry(r, a - n, b - n) && s[a..b] == r[a - n..b - n])
    {
      if a == 0 {
        assert b == |e|;
      } else {
        assert a >= n;
        assert a > n ==> r[a - n - 1] == s[a - 1];
        assert forall q | a - n <= q < b - n :: r[q] == s[q + n];
      }
    }
    forall a: nat, b: nat | IsEntry(r, a, b)
      ensures IsEntry(s, a + n, b + n) && s[a + n..b + n] == r[a..b]
    {
      assert a > 0 ==> s[a + n - 1] == r[a - 1];
      assert forall q | a + n <= q < b + n :: s[q] == r[q - n];
    }
  }

  /** And every scope is such a list. */
  lemma {:induction false} ScopeHasEntries(scope: string) returns (entries: seq<string>)
    ensures entries != [] && Join(entries) == scope && forall e <- entries :: ',' !in e
    decreases |scope|
  {
    if ',' !in scope {
      entries := [scope];
    } else {
      var k := FirstComma(scope);
      var rest := ScopeHasEntries(scope[k + 1..]);
      entries := [scope[..k]] + rest;
      assert scope == scope[..k] + "," + scope[k + 1..] && entries[1..] == rest;
    }
  }

  lemma {:induction false} FirstComma(s: string) returns (k: nat)
    requires ',' in s
    ensures k < |s| && s[k] == ',' && ',' !in s[..k]
  {
    if s[0] == ',' {
      k := 0;
    } else {
      k := FirstComma(s[1..]);
      assert s[..k + 1] == [s[0]] + s[1..][..k];
      k := k + 1;
    }
  }

  // ---- Redirects ----

  /** A block of redirects.txt. */
  datatype Rule = Rule(scope: string, from: string, to: string)

  ghost predicate Applies(r: Rule, id: Identity, url: string) {
    InScope(r.scope, id) && Accepts(r.from, url)
  }

  /** The replacement of the first rule that applies, followed by exactly what its pattern did not account for. */
  method ApplyRedirect(rules: seq<Rule>, id: Identity, url: string) returns (r: Option<string>)
    ensures r.None? <==> forall i | 0 <= i < |rules| :: !Applies(rules[i], id, url)
    ensures r.Some? ==> exists i, n ::
              && 0 <= i < |rules| && Applies(rules[i], id, url)
                && (forall k | 0 <= k < i :: !Applies(rules[k], id, url))
              && 0 <= n <= |url| && Shortest(rules[i].from, url, n) && r.value == rules[i].to + url[n..]
  {
    var i := 0;
    while i < |rules|
      invariant i <= |rules|
      invariant forall k | 0 <= k < i :: !Applies(rules[k], id, url)
    {
      var admitted := ScopeMatches(rules[i].scope, id);
      if admitted {
        var hit, n := GlobPrefix(rules[i].from, url);
        if hit {
          return Some(rules[i].to + url[n..]);
        }
      }
      i := i + 1;
    }
    return None;
  }

  /** The shortest prefix is unique, so the redirect is a function of the rules, the process and the URL. */
  lemma ShortestIsUnique(p: string, s: string, m: nat, n: nat)
    requires Shortest(p, s, m) && Shortest(p, s, n)
    ensures m == n
  {
  }
}
