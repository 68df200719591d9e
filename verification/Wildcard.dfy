/** matchPattern, the same in pkg/server/acl.go and pkg/registry/method_registry.go, against a real glob. */
module Wildcard {
  const STAR: char := '*'

  predicate HasPrefix(s: string, prefix: string) {
    prefix <= s
  }

  predicate HasSuffix(s: string, suffix: string) {
    |suffix| <= |s| && s[|s| - |suffix|..] == suffix
  }

  predicate OccursAt(s: string, sub: string, i: nat) {
    i + |sub| <= |s| && s[i..i + |sub|] == sub
  }

  predicate Contains(s: string, sub: string) {
    exists i: nat | i <= |s| :: OccursAt(s, sub, i)
  }

  function TrimLeft(s: string): string {
    if s != [] && s[0] == STAR then TrimLeft(s[1..]) else s
  }

  function TrimRight(s: string): string {
    if s != [] && s[|s| - 1] == STAR then TrimRight(s[..|s| - 1]) else s
  }

  /** strings.Trim(s, "*") */
  function Trim(s: string): string {
    TrimRight(TrimLeft(s))
  }

  predicate Matches(value: string, pattern: string) {
    if pattern == [STAR] then true
    else if STAR !in pattern then value == pattern
    else if HasPrefix(pattern, [STAR]) && HasSuffix(pattern, [STAR]) then Contains(value, Trim(pattern))
    else if HasPrefix(pattern, [STAR]) then HasSuffix(value, pattern[1..])
    else if HasSuffix(pattern, [STAR]) then HasPrefix(value, pattern[..|pattern| - 1])
    else false
  }

  /** Glob semantics: a star matches any string, every other character itself. */
  predicate Glob(value: string, pattern: string)
    decreases |value| + |pattern|
  {
    if pattern == [] then value == []
    else if pattern[0] == STAR then Glob(value, pattern[1..]) || (value != [] && Glob(value[1..], pattern))
    else value != [] && value[0] == pattern[0] && Glob(value[1..], pattern[1..])
  }

  function Stars(n: nat): string {
    seq(n, i => STAR)
  }

  // ---- Algebra of the glob ----

  lemma {:induction false} GlobSelf(s: string)
    ensures Glob(s, s)
  {
    if s != [] {
      GlobSelf(s[1..]);
      if s[0] == STAR { assert Glob(s[1..], s); }
    }
  }

  lemma {:induction false} GlobConcat(x: string, p: string, y: string, q: string)
    requires Glob(x, p) && Glob(y, q)
    ensures Glob(x + y, p + q)
    decreases |x| + |p|
  {
    if p == [] {
      assert x + y == y && p + q == q;
    } else {
      assert (p + q)[1..] == p[1..] + q;
      if p[0] == STAR && Glob(x, p[1..]) {
        GlobConcat(x, p[1..], y, q);
      } else {
        assert (x + y)[1..] == x[1..] + y;
        GlobConcat(x[1..], if p[0] == STAR then p else p[1..], y, q);
      }
    }
  }

  lemma {:induction false} GlobStars(value: string, n: nat)
    ensures Glob(value, Stars(n)) <==> n > 0 || value == []
    decreases |value| + n
  {
    if n > 0 {
      assert Stars(n)[1..] == Stars(n - 1);
      GlobStars(value, n - 1);
      if value != [] { GlobStars(value[1..], n); }
    }
  }

  /** A star-free prefix must be matched literally. */
  lemma {:induction false} GlobLiteral(value: string, literal: string, rest: string)
    requires STAR !in literal
    ensures Glob(value, literal + rest) <==> literal <= value && Glob(value[|literal|..], rest)
  {
    if literal == [] {
      assert literal + rest == rest;
    } else {
      assert (literal + rest)[1..] == literal[1..] + rest;
      if value != [] && value[0] == literal[0] {
        GlobLiteral(value[1..], literal[1..], rest);
        assert literal[1..] <= value[1..] <==> literal <= value;
        if literal <= value { assert value[1..][|literal| - 1..] == value[|literal|..]; }
      }
    }
  }

  /** Leading stars skip any prefix of the value. */
  lemma {:induction false} GlobSkips(value: string, n: nat, rest: string)
    requires n > 0
    ensures Glob(value, Stars(n) + rest) <==> exists i | 0 <= i <= |value| :: Glob(value[i..], rest)
    decreases |value| + n
  {
    var pattern := Stars(n) + rest;
    assert pattern[1..] == Stars(n - 1) + rest;
    if n > 1 {
      GlobSkips(value, n - 1, rest);
      if value != [] { GlobSkips(value[1..], n, rest); SkipTail(value, rest); }
    } else {
      assert pattern[1..] == rest && value[0..] == value;
      if value != [] { GlobSkips(value[1..], n, rest); SkipTail(value, rest); }
    }
  }

  lemma SkipTail(value: string, rest: string)
    requires value != []
    ensures (exists i | 0 <= i <= |value| :: Glob(value[i..], rest))
            <==> Glob(value, rest) || (exists i | 0 <= i <= |value[1..]| :: Glob(value[1..][i..], rest))
  {
    assert value[0..] == value;
    forall i | 0 <= i < |value| ensures value[1..][i..] == value[i + 1..] {}
    if i :| 0 <= i <= |value| && Glob(value[i..], rest) {
      if i > 0 { assert value[1..][i - 1..] == value[i..]; }
    }
  }

  // ---- Shape of a pattern ----

  lemma {:induction false} TrimLeftShape(s: string) returns (a: nat)
    ensures s == Stars(a) + TrimLeft(s)
    ensures TrimLeft(s) != [] ==> TrimLeft(s)[0] != STAR
  {
    if s != [] && s[0] == STAR {
      var b := TrimLeftShape(s[1..]);
      a := b + 1;
      assert s == [STAR] + s[1..];
      assert Stars(a) == [STAR] + Stars(b);
    } else {
      a := 0;
    }
  }

  lemma {:induction false} TrimRightShape(s: string) returns (b: nat)
    ensures s == TrimRight(s) + Stars(b)
    ensures TrimRight(s) != [] ==> TrimRight(s)[|TrimRight(s)| - 1] != STAR
  {
    if s != [] && s[|s| - 1] == STAR {
      var c := TrimRightShape(s[..|s| - 1]);
      b := c + 1;
      assert s == s[..|s| - 1] + [STAR];
      assert Stars(b) == Stars(c) + [STAR];
    } else {
      b := 0;
    }
  }

  /** A pattern is its core between stars; the core neither starts nor ends with one. */
  lemma Shape(p: string) returns (a: nat, b: nat)
    ensures p == Stars(a) + Trim(p) + Stars(b)
    ensures |p| - |Trim(p)| == a + b
    ensures Trim(p) != [] ==> (a > 0 <==> HasPrefix(p, [STAR])) && (b > 0 <==> HasSuffix(p, [STAR]))
  {
    a := TrimLeftShape(p);
    b := TrimRightShape(TrimLeft(p));
    assert p == Stars(a) + Trim(p) + Stars(b);
    if Trim(p) != [] {
      assert TrimLeft(p)[0] == Trim(p)[0];
      StarAtEnds(a, Trim(p), b);
    }
  }

  lemma StarAtEnds(a: nat, core: string, b: nat)
    requires core != [] && core[0] != STAR && core[|core| - 1] != STAR
    ensures var p := Stars(a) + core + Stars(b);
            (a > 0 <==> HasPrefix(p, [STAR])) && (b > 0 <==> HasSuffix(p, [STAR]))
  {
    var p := Stars(a) + core + Stars(b);
    assert HasPrefix(p, [STAR]) <==> p[0] == STAR;
    assert HasSuffix(p, [STAR]) <==> p[|p| - 1] == STAR;
    assert p[|p| - 1] == if b > 0 then STAR else core[|core| - 1];
    assert p[0] == if a > 0 then STAR else core[0];
  }

  /** What the glob accepts when the core has no star of its own. */
  lemma GlobOfCore(value: string, a: nat, core: string, b: nat)
    requires STAR !in core
    ensures Glob(value, Stars(a) + core + Stars(b)) <==>
              if a > 0 && b > 0 then Contains(value, core)
              else if a > 0 then HasSuffix(value, core)
              else if b > 0 then HasPrefix(value, core)
              else value == core
  {
    var tail := core + Stars(b);
    assert Stars(a) + core + Stars(b) == Stars(a) + tail;
    if a > 0 {
      GlobSkips(value, a, tail);
      forall i: nat | i <= |value|
        ensures Glob(value[i..], tail) <==> OccursAt(value, core, i) && (b > 0 || i + |core| == |value|)
      {
        GlobOfTail(value, i, core, b);
      }
      if b == 0 && HasSuffix(value, core) {
        assert OccursAt(value, core, |value| - |core|);
      }
    } else {
      assert Stars(a) + tail == tail && value[0..] == value;
      GlobOfTail(value, 0, core, b);
      assert |core| <= |value| ==> value[0..0 + |core|] == value[..|core|];
    }
  }

  lemma GlobOfTail(value: string, i: nat, core: string, b: nat)
    requires STAR !in core && i <= |value|
    ensures Glob(value[i..], core + Stars(b)) <==> OccursAt(value, core, i) && (b > 0 || i + |core| == |value|)
  {
    GlobLiteral(value[i..], core, Stars(b));
    if i + |core| <= |value| {
      GlobStars(value[i..][|core|..], b);
      assert value[i..i + |core|] == value[i..][..|core|];
    }
  }

  // ---- Soundness ----

  /** Whatever the matcher accepts, the glob accepts. */
  lemma MatcherSound(value: string, pattern: string)
    requires Matches(value, pattern)
    ensures Glob(value, pattern)
  {
    if pattern == [STAR] {
      GlobStars(value, 1);
      assert pattern == Stars(1);
    } else if STAR !in pattern {
      GlobSelf(value);
    } else if HasPrefix(pattern, [STAR]) && HasSuffix(pattern, [STAR]) {
      ContainsSound(value, pattern);
    } else if HasPrefix(pattern, [STAR]) {
      var suffix := pattern[1..];
      Surround(value[..|value| - |suffix|], 1, suffix, [], 0);
      assert value == value[..|value| - |suffix|] + suffix + [] && pattern == Stars(1) + suffix + Stars(0);
    } else {
      var prefix := pattern[..|pattern| - 1];
      Surround([], 0, prefix, value[|prefix|..], 1);
      assert value == [] + prefix + value[|prefix|..] && pattern == Stars(0) + prefix + Stars(1);
    }
  }

  /** A text between two strings matches itself between stars, on each side that has any. */
  lemma Surround(before: string, a: nat, text: string, behind: string, b: nat)
    requires (a > 0 || before == []) && (b > 0 || behind == [])
    ensures Glob(before + text + behind, Stars(a) + text + Stars(b))
  {
    GlobStars(before, a);
    GlobSelf(text);
    GlobConcat(before, Stars(a), text, text);
    GlobStars(behind, b);
    GlobConcat(before + text, Stars(a) + text, behind, Stars(b));
  }

  lemma ContainsSound(value: string, pattern: string)
    requires HasPrefix(pattern, [STAR]) && HasSuffix(pattern, [STAR]) && Contains(value, Trim(pattern))
    ensures Glob(value, pattern)
  {
    var a, b := Shape(pattern);
    var core := Trim(pattern);
    var i: nat :| i <= |value| && OccursAt(value, core, i);
    if core == [] {
      assert pattern == Stars(a + b);
      GlobStars(value, a + b);
    } else {
      Surround(value[..i], a, core, value[i + |core|..], b);
      assert value == value[..i] + core + value[i + |core|..];
    }
  }

  // ---- Completeness, exactly ----

  /** No star inside the core, and outside it at most one star or stars on both ends. */
  predicate Faithful(pattern: string) {
    && STAR !in Trim(pattern)
    && (|pattern| - |Trim(pattern)| <= 1 || (HasPrefix(pattern, [STAR]) && HasSuffix(pattern, [STAR])))
  }

  lemma FaithfulComplete(value: string, pattern: string)
    requires Faithful(pattern)
    ensures Matches(value, pattern) <==> Glob(value, pattern)
  {
    var a, b := Shape(pattern);
    var core := Trim(pattern);
    if core == [] {
      assert pattern == Stars(a + b);
      AllStarsComplete(value, a + b);
    } else {
      GlobOfCore(value, a, core, b);
      MatchesOfCore(value, a, core, b);
    }
  }

  lemma AllStarsComplete(value: string, n: nat)
    requires Trim(Stars(n)) == []
    ensures Matches(value, Stars(n)) <==> Glob(value, Stars(n))
  {
    GlobStars(value, n);
    if n == 0 {
      assert Stars(n) == [];
    } else if n == 1 {
      assert Stars(n) == [STAR];
    } else {
      assert Stars(n)[0] == STAR && Stars(n)[n - 1] == STAR;
      assert OccursAt(value, [], 0);
    }
  }

  /** What the matcher compares, read off the shape of a faithful pattern. */
  lemma MatchesOfCore(value: string, a: nat, core: string, b: nat)
    requires core != [] && STAR !in core
    requires var p := Stars(a) + core + Stars(b); Trim(p) == core && (a + b <= 1 || (a > 0 && b > 0))
    ensures Matches(value, Stars(a) + core + Stars(b)) <==>
              if a > 0 && b > 0 then Contains(value, core)
              else if a > 0 then HasSuffix(value, core)
              else if b > 0 then HasPrefix(value, core)
              else value == core
  {
    var p := Stars(a) + core + Stars(b);
    StarAtEnds(a, core, b);
    assert core[0] in core && core[|core| - 1] in core;
    assert a + b == 0 ==> p == core;
    assert a == 1 && b == 0 ==> p[1..] == core;
    assert a == 0 && b == 1 ==> p[..|p| - 1] == core;
    assert p[a] == core[0];
  }

  function StripStars(s: string): string {
    if s == [] then [] else (if s[0] == STAR then [] else [s[0]]) + StripStars(s[1..])
  }

  lemma {:induction false} StripShorter(s: string)
    ensures |StripStars(s)| <= |s|
    ensures STAR in s ==> |StripStars(s)| < |s|
  {
    if s != [] { StripShorter(s[1..]); }
  }

  lemma {:induction false} StripConcat(s: string, t: string)
    ensures StripStars(s + t) == StripStars(s) + StripStars(t)
  {
    if s == [] {
      assert s + t == t;
    } else {
      assert (s + t)[1..] == s[1..] + t;
      StripConcat(s[1..], t);
    }
  }

  lemma {:induction false} StripOfStars(n: nat)
    ensures StripStars(Stars(n)) == []
  {
    if n > 0 {
      assert Stars(n)[1..] == Stars(n - 1);
      StripOfStars(n - 1);
    }
  }

  /** Every star may match nothing, so the glob accepts the pattern's own star-free text. */
  lemma {:induction false} GlobStrip(s: string)
    ensures Glob(StripStars(s), s)
  {
    if s != [] {
      GlobStrip(s[1..]);
      if s[0] == STAR {
        assert StripStars(s) == StripStars(s[1..]);
      } else {
        assert StripStars(s)[1..] == StripStars(s[1..]);
      }
    }
  }

  /** The matcher misses it when the pattern is not faithful: it looks for a text with stars in it. */
  lemma {:induction false} UnfaithfulMisses(pattern: string)
    requires !Faithful(pattern)
    ensures Glob(StripStars(pattern), pattern) && !Matches(StripStars(pattern), pattern)
  {
    GlobStrip(pattern);
    if STAR !in pattern {
      NoStarNoTrim(pattern);
    } else if HasPrefix(pattern, [STAR]) && HasSuffix(pattern, [STAR]) {
      StripOfCore(pattern);
      StripShorter(Trim(pattern));
      LoneStarIsFaithful();
    } else if HasPrefix(pattern, [STAR]) {
      var suffix := pattern[1..];
      assert pattern == [STAR] + suffix;
      StripConcat([STAR], suffix);
      StripShorter(suffix);
      if STAR !in suffix { NoStarNoTrim(suffix); }
    } else if HasSuffix(pattern, [STAR]) {
      var prefix := pattern[..|pattern| - 1];
      assert pattern == prefix + [STAR];
      StripConcat(prefix, [STAR]);
      StripShorter(prefix);
      if STAR !in prefix { NoStarNoTrim(prefix); }
    }
  }

  lemma LoneStarIsFaithful()
    ensures Faithful([STAR])
  {
    assert [STAR][1..] == "";
    assert TrimLeft([STAR]) == "";
  }

  lemma StripOfCore(pattern: string)
    ensures StripStars(pattern) == StripStars(Trim(pattern))
  {
    var a, b := Shape(pattern);
    StripConcat(Stars(a) + Trim(pattern), Stars(b));
    StripConcat(Stars(a), Trim(pattern));
    StripOfStars(a);
    StripOfStars(b);
  }

  lemma NoStarNoTrim(s: string)
    requires STAR !in s
    ensures Trim(s) == s
  {
  }

  ghost predicate Complete(pattern: string) {
    forall value :: Matches(value, pattern) <==> Glob(value, pattern)
  }

  /** The matcher is the glob for a pattern if and only if the pattern is faithful. */
  lemma MatcherCompleteExactly(pattern: string)
    ensures Complete(pattern) <==> Faithful(pattern)
  {
    if Faithful(pattern) {
      forall value ensures Matches(value, pattern) <==> Glob(value, pattern) {
        FaithfulComplete(value, pattern);
      }
    } else {
      UnfaithfulMisses(pattern);
    }
  }

  // ---- Every pattern, by concatenation ----

  ghost predicate Starts(value: string, prefix: string) {
    exists x: string :: value == prefix + x
  }

  ghost predicate Ends(value: string, suffix: string) {
    exists x: string :: value == x + suffix
  }

  ghost predicate Around(value: string, core: string) {
    exists x: string, y: string :: value == x + core + y
  }

  lemma PrefixMeans(value: string, prefix: string)
    ensures HasPrefix(value, prefix) <==> Starts(value, prefix)
  {
    if HasPrefix(value, prefix) { assert value == prefix + value[|prefix|..]; }
  }

  lemma SuffixMeans(value: string, suffix: string)
    ensures HasSuffix(value, suffix) <==> Ends(value, suffix)
  {
    if HasSuffix(value, suffix) { assert value == value[..|value| - |suffix|] + suffix; }
  }

  lemma ContainsMeans(value: string, core: string)
    ensures Contains(value, core) <==> Around(value, core)
  {
    if Contains(value, core) {
      var i: nat :| i <= |value| && OccursAt(value, core, i);
      assert value == value[..i] + core + value[i + |core|..];
    }
    if x: string, y: string :| value == x + core + y {
      assert OccursAt(value, core, |x|);
    }
  }

  /** A pattern without a star matches itself and nothing else; a star in front alone any text that ends in the
      rest; one behind alone any text that starts with it; stars inside alone nothing at all. */
  lemma MatchesByEnds(value: string, pattern: string)
    ensures '*' !in pattern ==> (Matches(value, pattern) <==> value == pattern)
    ensures pattern == "*" ==> Matches(value, pattern)
    ensures var n := |pattern|;
            n > 1 ==>
              && (pattern[0] == '*' && pattern[n - 1] != '*' ==>
                    (Matches(value, pattern) <==> Ends(value, pattern[1..])))
              && (pattern[0] != '*' && pattern[n - 1] == '*' ==>
                    (Matches(value, pattern) <==> Starts(value, pattern[..n - 1])))
              && (pattern[0] != '*' && pattern[n - 1] != '*' && '*' in pattern ==> !Matches(value, pattern))
  {
    var n := |pattern|;
    if n > 1 {
      assert pattern[0] in pattern && pattern[n - 1] in pattern;
      assert HasPrefix(pattern, [STAR]) <==> pattern[0] == '*';
      assert HasSuffix(pattern, [STAR]) <==> pattern[n - 1] == '*';
      SuffixMeans(value, pattern[1..]);
      PrefixMeans(value, pattern[..n - 1]);
    }
  }

  lemma {:induction false} TrimLeftDrops(a: nat, rest: string)
    requires rest == [] || rest[0] != STAR
    ensures TrimLeft(Stars(a) + rest) == rest
  {
    if a > 0 {
      assert (Stars(a) + rest)[1..] == Stars(a - 1) + rest;
      TrimLeftDrops(a - 1, rest);
    } else {
      assert Stars(0) + rest == rest;
    }
  }

  lemma {:induction false} TrimRightDrops(rest: string, b: nat)
    requires rest == [] || rest[|rest| - 1] != STAR
    ensures TrimRight(rest + Stars(b)) == rest
  {
    if b > 0 {
      var s := rest + Stars(b);
      assert s[..|s| - 1] == rest + Stars(b - 1);
      TrimRightDrops(rest, b - 1);
    } else {
      assert rest + Stars(0) == rest;
    }
  }

  /** Trimming stars off a pattern leaves its core. */
  lemma TrimIsCore(a: nat, core: string, b: nat)
    requires core == [] || (core[0] != STAR && core[|core| - 1] != STAR)
    ensures Trim(Stars(a) + core + Stars(b)) == core
  {
    if core == [] {
      assert Stars(a) + core + Stars(b) == Stars(a + b) + [];
      TrimLeftDrops(a + b, []);
    } else {
      assert Stars(a) + core + Stars(b) == Stars(a) + (core + Stars(b));
      TrimLeftDrops(a, core + Stars(b));
      TrimRightDrops(core, b);
    }
  }

  /** With stars at both ends a pattern matches any text around its core, taken literally: stars inside the core
      match only stars. */
  lemma MatchesAroundCore(value: string, a: nat, core: string, b: nat)
    requires a > 0 && b > 0 && (core == [] || (core[0] != '*' && core[|core| - 1] != '*'))
    ensures Matches(value, Stars(a) + core + Stars(b)) <==> Around(value, core)
  {
    var pattern := Stars(a) + core + Stars(b);
    assert pattern[0] == STAR && pattern[|pattern| - 1] == STAR;
    TrimIsCore(a, core, b);
    ContainsMeans(value, core);
  }

  /** Every pattern with stars at both ends has that form. */
  lemma HasCore(pattern: string) returns (a: nat, core: string, b: nat)
    requires |pattern| > 1 && pattern[0] == '*' && pattern[|pattern| - 1] == '*'
    ensures a > 0 && b > 0 && pattern == Stars(a) + core + Stars(b)
    ensures core == [] || (core[0] != '*' && core[|core| - 1] != '*')
  {
    a, b := Shape(pattern);
    core := Trim(pattern);
    var right := TrimRightShape(TrimLeft(pattern));
    if core == [] {
      b := a + b - 1;
      a := 1;
      assert pattern == Stars(a) + core + Stars(b);
    } else {
      var left := TrimLeftShape(pattern);
      assert TrimLeft(pattern)[0] == core[0];
    }
  }
}
