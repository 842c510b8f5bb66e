/**
 The linter's own, simplified reading of globs (globMatchesPath) against what they denote.
 The linter is sound on a glob when every path the glob denotes is one it recognises.
 */
module LintGlob {
  import opened Glob

  predicate HasSuffix(s: string, suffix: string)
  {
    |suffix| <= |s| && s[|s| - |suffix|..] == suffix
  }

  function TrimSuffix(s: string, suffix: string): string
  {
    if HasSuffix(s, suffix) then s[..|s| - |suffix|] else s
  }

  /** globMatchesPath */
  predicate GlobMatchesPath(pattern: string, path: string)
  {
    if pattern == "/**" || pattern == "/*" then true
    else if HasSuffix(pattern, "/**") then TrimSuffix(pattern, "/**") <= path
    else if HasSuffix(pattern, "/*") then TrimSuffix(pattern, "/*") + "/" <= path
    else false
  }

  predicate WildcardFree(s: string)
  {
    forall i :: 0 <= i < |s| ==> s[i] != '*' && s[i] != '?'
  }

  // The globs the linter understands: a wildcard-free prefix followed by `/**` or `/*`.
  predicate Understood(pattern: string)
  {
    || (HasSuffix(pattern, "/**") && WildcardFree(TrimSuffix(pattern, "/**")))
    || (HasSuffix(pattern, "/*") && WildcardFree(TrimSuffix(pattern, "/*")))
  }

  ghost predicate SoundOn(pattern: string)
  {
    forall path :: Denotes(pattern, path, false) ==> GlobMatchesPath(pattern, path)
  }

  /** A wildcard-free prefix of a glob denotes itself. */
  lemma {:induction false} LiteralPrefix(w: string, glob: string, path: string, lines: bool)
    requires WildcardFree(w)
    ensures Denotes(w + glob, path, lines) <==> w <= path && Denotes(glob, path[|w|..], lines)
  {
    if w == "" {
      assert w + glob == glob && path[0..] == path;
    } else {
      assert (w + glob)[1..] == w[1..] + glob;
      if path != "" {
        LiteralPrefix(w[1..], glob, path[1..], lines);
        if w <= path {
          assert path[1..][|w[1..]|..] == path[|w|..];
        }
      }
    }
  }

  /** A path every glob denotes: each wildcard stands for the one character 'x'. */
  function Sample(glob: string): string
    decreases |glob|
  {
    if glob == "" then ""
    else if TwoStars(glob) then "x" + Sample(AfterStars(glob))
    else if glob[0] == '*' || glob[0] == '?' then "x" + Sample(glob[1..])
    else [glob[0]] + Sample(glob[1..])
  }

  lemma {:induction false} SampleDenoted(glob: string)
    ensures Denotes(glob, Sample(glob), false)
    decreases |glob|
  {
    var path := Sample(glob);
    if glob == "" {
    } else if TwoStars(glob) {
      SampleDenoted(AfterStars(glob));
      assert path[1..] == Sample(AfterStars(glob)) && NewlineFree(path[..1]);
    } else {
      SampleDenoted(glob[1..]);
      assert path[1..] == Sample(glob[1..]) && SlashFree("x") && path[..1] == [path[0]];
    }
  }

  lemma PrefixTail(w: string, s: string)
    requires w != "" && s != ""
    ensures w <= s <==> w[0] == s[0] && w[1..] <= s[1..]
  {
    assert w == [w[0]] + w[1..] && s == [s[0]] + s[1..];
    if w[0] == s[0] && w[1..] <= s[1..] {
      assert s == w + s[|w|..];
    }
  }

  /** The sample departs from a prefix that holds a wildcard. */
  lemma {:induction false} SampleLeavesPrefix(w: string, glob: string)
    requires !WildcardFree(w)
    ensures !(w <= Sample(w + glob))
    decreases |w|
  {
    var g := w + glob;
    assert g[1..] == w[1..] + glob;
    if w[0] != '*' && w[0] != '?' {
      assert !WildcardFree(w[1..]) by {
        var i :| 0 <= i < |w| && (w[i] == '*' || w[i] == '?');
        assert w[1..][i - 1] == w[i];
      }
      SampleLeavesPrefix(w[1..], glob);
      assert Sample(g) == [w[0]] + Sample(w[1..] + glob);
      PrefixTail(w, Sample(g));
    }
  }

  lemma UnderstoodIsSound(pattern: string, path: string)
    requires Understood(pattern)
    requires Denotes(pattern, path, false)
    ensures GlobMatchesPath(pattern, path)
  {
    if HasSuffix(pattern, "/**") && WildcardFree(TrimSuffix(pattern, "/**")) {
      var w := TrimSuffix(pattern, "/**");
      assert pattern == w + "/**";
      LiteralPrefix(w, "/**", path, false);
    } else {
      var w := TrimSuffix(pattern, "/*");
      assert pattern == w + "/*" && w + "/" + "*" == pattern;
      LiteralPrefix(w + "/", "*", path, false);
    }
  }

  /** The linter over-approximates a compiled glob exactly when it understands its shape. */
  lemma SoundOnlyOnUnderstood(pattern: string)
    ensures SoundOn(pattern) <==> Understood(pattern)
  {
    if Understood(pattern) {
      forall path | Denotes(pattern, path, false) ensures GlobMatchesPath(pattern, path) {
        UnderstoodIsSound(pattern, path);
      }
    } else {
      SampleDenoted(pattern);
      assert !GlobMatchesPath(pattern, Sample(pattern)) by {
        if HasSuffix(pattern, "/**") {
          var w := TrimSuffix(pattern, "/**");
          assert pattern == w + "/**";
          SampleLeavesPrefix(w, "/**");
        } else if HasSuffix(pattern, "/*") {
          var w := TrimSuffix(pattern, "/*");
          assert pattern == w + "/*";
          SampleLeavesPrefix(w, "/*");
        }
      }
    }
  }

  /** The linter reads a glob by its ending alone; whatever comes before is compared as it stands. */
  lemma ReadByEnding(w: string, path: string)
    ensures GlobMatchesPath(w + "/**", path) <==> w <= path
    ensures GlobMatchesPath(w + "/*", path) <==> w == "" || w + "/" <= path
  {
    var stars, star := w + "/**", w + "/*";
    assert HasSuffix(stars, "/**") && TrimSuffix(stars, "/**") == w;
    assert HasSuffix(star, "/*") && TrimSuffix(star, "/*") == w;
    assert star[|star| - 1] == '*' && star[|star| - 2] == '/';
    assert |star| >= 3 ==> star[|star| - 3..][1] == '/';
    assert !HasSuffix(star, "/**");
  }

  lemma NoOtherEnding(pattern: string, path: string)
    ensures GlobMatchesPath(pattern, path) ==> exists w :: pattern == w + "/**" || pattern == w + "/*"
  {
    if HasSuffix(pattern, "/**") {
      assert pattern == TrimSuffix(pattern, "/**") + "/**";
    } else if HasSuffix(pattern, "/*") {
      assert pattern == TrimSuffix(pattern, "/*") + "/*";
    }
    assert pattern == "/**" ==> pattern == "" + "/**";
    assert pattern == "/*" ==> pattern == "" + "/*";
  }

  /** What an understood glob matches, against what the linter takes it to match: paths are missing nowhere, and
      superfluous only without the slash, beyond the next one, or behind a newline. */
  lemma UnderstoodExactly(w: string, path: string)
    requires WildcardFree(w)
    ensures Denotes(w + "/**", path, false) <==> w + "/" <= path && '\n' !in path[|w| + 1..]
    ensures Denotes(w + "/*", path, false) <==> w + "/" <= path && '/' !in path[|w| + 1..]
  {
    var head := w + "/";
    assert WildcardFree(head);
    LiteralPrefix(head, "**", path, false);
    LiteralPrefix(head, "*", path, false);
    assert head + "**" == w + "/**" && head + "*" == w + "/*";
    if head <= path {
      WildcardsAlone(path[|w| + 1..], false, 'c');
    }
  }

}
