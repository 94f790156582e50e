/**
 * Registration patterns `[METHOD:]path[@domain]` (parsePatternForBindHandler),
 * the exact-table key (handlerKey) and the test that decides whether a uri
 * also goes into the pattern tree (isUriHasRule).
 *
 * The two regular expressions of the parser are written out as scanners with
 * the semantics of Go's regexp package: the search is unanchored and takes the
 * leftmost match, groups are greedy, and `.` does not match a newline.
 */
module Pattern {
  import opened Options
  import opened Strings
  import opened Entities

  datatype RouteError = InvalidPattern

  datatype Parsed = Parsed(domain: string, httpMethod: string, uri: string)

  // ---------------------------------------------------------------------
  // `([a-zA-Z]+):(.+)`

  /** The method expression can match with its first group starting at `i`. */
  predicate MethodMatchAt(s: string, i: nat)
    requires i <= |s|
  {
    var j := RunEnd(s, i, IsLetter);
    i < j && j + 1 < |s| && s[j] == ':' && s[j + 1] != '\n'
  }

  /**
   * Leftmost match of the method expression at or after `i`, as its two
   * groups. The letter group must stop where the letters stop (the next
   * character has to be `:`), and `(.+)` runs to the end of the line.
   */
  function FindMethod(s: string, i: nat): (r: Option<(string, string)>)
    requires i <= |s|
    ensures r.Some? ==> |r.value.0| > 0 && |r.value.1| > 0
    decreases |s| - i
  {
    if i == |s| then None
    else if MethodMatchAt(s, i) then
      var j := RunEnd(s, i, IsLetter);
      Some((s[i..j], s[j + 1..RunEnd(s, j + 1, NotNewline)]))
    else FindMethod(s, i + 1)
  }

  // ---------------------------------------------------------------------
  // `(.+)@([\w\.\-]+)`

  /** An `@` at `a` followed by at least one domain character. */
  predicate DomainSepAt(s: string, a: nat) {
    a + 1 < |s| && s[a] == '@' && IsRuleChar(s[a + 1])
  }

  /**
   * The greedy `(.+)` backs off from the end of the line to the last `@`
   * that can be followed by a domain: the largest `a` with `lo < a < hi`.
   */
  function LastDomainSep(s: string, lo: nat, hi: nat): (r: Option<nat>)
    requires hi <= |s|
    ensures r.Some? ==> lo < r.value < hi && DomainSepAt(s, r.value)
    ensures r.Some? ==> forall a :: r.value < a < hi ==> !DomainSepAt(s, a)
    ensures r.None? ==> forall a :: lo < a < hi ==> !DomainSepAt(s, a)
    decreases hi
  {
    if hi <= lo + 1 then None
    else if DomainSepAt(s, hi - 1) then Some(hi - 1)
    else LastDomainSep(s, lo, hi - 1)
  }

  /** Leftmost match of the domain expression at or after `i`, as its two groups. */
  function FindDomain(s: string, i: nat): (r: Option<(string, string)>)
    requires i <= |s|
    ensures r.Some? ==> |r.value.0| > 0 && |r.value.1| > 0
    decreases |s| - i
  {
    if i == |s| then None
    else
      var a := LastDomainSep(s, i, RunEnd(s, i, NotNewline));
      if a.Some? then
        Some((s[i..a.value], s[a.value + 1..RunEnd(s, a.value + 1, IsRuleChar)]))
      else FindDomain(s, i + 1)
  }

  /**
   * parsePatternForBindHandler. The uri starts as the whole pattern and is
   * replaced only when the domain expression matches (on the pattern with its
   * method already stripped). Registration fails exactly for the empty pattern.
   */
  function ParsePattern(cfg: Config, pattern: string): (r: Result<Parsed, RouteError>)
    ensures r.Err? <==> pattern == ""
    ensures r.Ok? ==> |r.value.uri| > 0
  {
    var m := FindMethod(pattern, 0);
    var httpMethod := if m.Some? then m.value.0 else cfg.defaultMethod;
    var rest := if m.Some? then m.value.1 else pattern;
    var d := FindDomain(rest, 0);
    var uri := if d.Some? then d.value.0 else pattern;
    var domain := if d.Some? then d.value.1 else cfg.defaultDomain;
    if uri == "" then Err(InvalidPattern) else Ok(Parsed(domain, httpMethod, uri))
  }

  /** A pattern with an explicit method and domain parses back into its three parts. */
  lemma ParseMethodPathDomain(cfg: Config, m: string, p: string, d: string)
    requires |m| > 0 && forall k :: 0 <= k < |m| ==> IsLetter(m[k])
    requires |p| > 0 && '\n' !in p
    requires |d| > 0 && forall k :: 0 <= k < |d| ==> IsRuleChar(d[k])
    ensures ParsePattern(cfg, m + ":" + p + "@" + d) == Ok(Parsed(d, m, p))
  {
    var rest := p + "@" + d;
    assert '\n' !in rest by {
      assert forall k | 0 <= k < |rest| :: rest[k] != '\n' by {
        assert forall k | |p| < k < |rest| :: rest[k] == d[k - |p| - 1];
      }
    }
    assert m + ":" + p + "@" + d == m + ":" + rest;
    MethodPrefix(m, rest);
    DomainSuffix(p, d);
  }

  /** `METHOD:rest` is split by the method expression into its two parts. */
  lemma MethodPrefix(m: string, rest: string)
    requires |m| > 0 && forall k :: 0 <= k < |m| ==> IsLetter(m[k])
    requires |rest| > 0 && '\n' !in rest
    ensures FindMethod(m + ":" + rest, 0) == Some((m, rest))
  {
    var s := m + ":" + rest;
    RunEndIs(s, 0, IsLetter, |m|);
    assert MethodMatchAt(s, 0);
    assert forall k | |m| + 1 <= k < |s| :: s[k] == rest[k - |m| - 1];
    RunEndIs(s, |m| + 1, NotNewline, |s|);
    assert s[|m| + 1..] == rest;
    assert s[..|m|] == m;
    MethodGroups(s, m, rest);
  }

  /** `path@domain` is split by the domain expression into its two parts. */
  lemma DomainSuffix(p: string, d: string)
    requires |p| > 0 && '\n' !in p
    requires |d| > 0 && forall k :: 0 <= k < |d| ==> IsRuleChar(d[k])
    ensures FindDomain(p + "@" + d, 0) == Some((p, d))
  {
    var rest := p + "@" + d;
    DomainCharsAfter(p, d);
    RunEndIs(rest, 0, NotNewline, |rest|);
    DomainSepIsLast(p, d);
    RunEndIs(rest, |p| + 1, IsRuleChar, |rest|);
    assert rest[|p| + 1..|rest|] == d;
    assert rest[0..|p|] == p;
  }

  /** After the `@` of `path@domain` come exactly the domain's characters. */
  lemma DomainCharsAfter(p: string, d: string)
    requires '\n' !in p
    requires forall k :: 0 <= k < |d| ==> IsRuleChar(d[k])
    ensures var rest := p + "@" + d;
      && (forall k :: |p| < k < |rest| ==> rest[k] == d[k - |p| - 1] && IsRuleChar(rest[k]))
      && (forall k :: 0 <= k < |rest| ==> rest[k] != '\n')
  {
    var rest := p + "@" + d;
    forall k | 0 <= k < |rest|
      ensures rest[k] != '\n'
      ensures |p| < k ==> rest[k] == d[k - |p| - 1] && IsRuleChar(rest[k])
    {
      if k < |p| {
        assert rest[k] == p[k];
      } else if |p| < k {
        assert rest[k] == d[k - |p| - 1];
      }
    }
  }

  /** The greedy path group of `path@domain` stops at that `@`: no `@` follows it. */
  lemma DomainSepIsLast(p: string, d: string)
    requires |p| > 0 && |d| > 0
    requires forall k :: |p| < k < |p + "@" + d| ==> IsRuleChar((p + "@" + d)[k])
    ensures LastDomainSep(p + "@" + d, 0, |p + "@" + d|) == Some(|p|)
  {
    var rest := p + "@" + d;
    assert DomainSepAt(rest, |p|);
    assert forall b :: |p| < b < |rest| ==> !DomainSepAt(rest, b) by {
      assert forall b :: |p| < b < |rest| ==> IsRuleChar(rest[b]);
    }
  }

  /** Without `@domain` nothing is stripped from the uri: it keeps the `METHOD:` prefix. */
  lemma ParseMethodWithoutDomain(cfg: Config, m: string, p: string)
    requires |m| > 0 && forall k :: 0 <= k < |m| ==> IsLetter(m[k])
    requires |p| > 0 && '\n' !in p && '@' !in p
    ensures ParsePattern(cfg, m + ":" + p) == Ok(Parsed(cfg.defaultDomain, m, m + ":" + p))
  {
    MethodPrefix(m, p);
    NoAtNoDomain(p, 0);
  }

  /** `path@domain` without a method: the domain is taken off and the default method applies. */
  lemma ParsePathDomain(cfg: Config, p: string, d: string)
    requires |p| > 0 && '\n' !in p
    requires forall k :: 0 < k < |p| && p[k] == ':' ==> !IsLetter(p[k - 1])
    requires |d| > 0 && forall k :: 0 <= k < |d| ==> IsRuleChar(d[k])
    ensures ParsePattern(cfg, p + "@" + d) == Ok(Parsed(d, cfg.defaultMethod, p))
  {
    var s := p + "@" + d;
    assert s[|p|] == '@';
    assert forall k :: |p| < k < |s| ==> IsRuleChar(s[k]) by {
      assert forall k :: |p| < k < |s| ==> s[k] == d[k - |p| - 1];
    }
    forall k | 0 < k < |s| && s[k] == ':'
      ensures !IsLetter(s[k - 1])
    {
      if k < |p| {
        assert s[k] == p[k] && s[k - 1] == p[k - 1];
      }
    }
    NoLetterColonNoMethod(s, 0);
    DomainSuffix(p, d);
  }

  /** A path with no `@` and no `:` right after a letter parses with both defaults. */
  lemma ParsePlainPath(cfg: Config, p: string)
    requires |p| > 0 && '@' !in p
    requires forall k :: 0 < k < |p| && p[k] == ':' ==> !IsLetter(p[k - 1])
    ensures ParsePattern(cfg, p) == Ok(Parsed(cfg.defaultDomain, cfg.defaultMethod, p))
  {
    NoLetterColonNoMethod(p, 0);
    NoAtNoDomain(p, 0);
  }

  /** The method expression matching at 0 with a known letter run yields these groups. */
  lemma MethodGroups(s: string, m: string, rest: string)
    requires |m| > 0 && MethodMatchAt(s, 0)
    requires RunEnd(s, 0, IsLetter) == |m|
    requires RunEnd(s, |m| + 1, NotNewline) == |s|
    requires s[..|m|] == m && s[|m| + 1..] == rest
    ensures FindMethod(s, 0) == Some((m, rest))
  {
    var j := RunEnd(s, 0, IsLetter);
    assert FindMethod(s, 0) == Some((s[0..j], s[j + 1..RunEnd(s, j + 1, NotNewline)]));
    assert s[0..j] == m;
    assert s[j + 1..RunEnd(s, j + 1, NotNewline)] == rest;
  }

  lemma {:induction false} NoAtNoDomain(s: string, i: nat)
    requires i <= |s| && '@' !in s
    ensures FindDomain(s, i) == None
    decreases |s| - i
  {
    if i < |s| {
      NoAtNoDomain(s, i + 1);
    }
  }

  lemma {:induction false} NoLetterColonNoMethod(s: string, i: nat)
    requires i <= |s|
    requires forall k :: 0 < k < |s| && s[k] == ':' ==> !IsLetter(s[k - 1])
    ensures FindMethod(s, i) == None
    decreases |s| - i
  {
    if i < |s| {
      var j := RunEnd(s, i, IsLetter);
      assert !MethodMatchAt(s, i) by {
        if i < j && j < |s| {
          assert IsLetter(s[j - 1]);
        }
      }
      NoLetterColonNoMethod(s, i + 1);
    }
  }

  // ---------------------------------------------------------------------
  // handlerKey

  /** handlerKey: `ToUpper(httpMethod) + ":" + pattern + "@" + ToLower(domain)`. */
  function HandlerKey(domain: string, httpMethod: string, pattern: string): string {
    ToUpper(httpMethod) + ":" + pattern + "@" + ToLower(domain)
  }

  /** Keys do not depend on the case of the method or of the domain. */
  lemma HandlerKeyIgnoresCase(d1: string, m1: string, d2: string, m2: string, p: string)
    requires EqualFold(d1, d2) && EqualFold(m1, m2)
    ensures HandlerKey(d1, m1, p) == HandlerKey(d2, m2, p)
  {
    EqualFoldIffSameUpper(m1, m2);
  }

  /**
   * Keys tell routes apart: when methods have no `:` and domains no `@`,
   * equal keys mean the same method and domain up to case and the same pattern.
   */
  lemma HandlerKeyDistinguishes(d1: string, m1: string, p1: string, d2: string, m2: string, p2: string)
    requires ':' !in m1 && ':' !in m2 && '@' !in d1 && '@' !in d2
    requires HandlerKey(d1, m1, p1) == HandlerKey(d2, m2, p2)
    ensures EqualFold(m1, m2) && p1 == p2 && EqualFold(d1, d2)
  {
    var u1, u2, l1, l2 := ToUpper(m1), ToUpper(m2), ToLower(d1), ToLower(d2);
    CaseMappingKeeps(m1, d1);
    CaseMappingKeeps(m2, d2);
    var key := HandlerKey(d1, m1, p1);
    assert key == u1 + [':'] + (p1 + ['@'] + l1);
    assert key == u2 + [':'] + (p2 + ['@'] + l2);
    SplitAtFirst(u1, u2, ':', p1 + ['@'] + l1, p2 + ['@'] + l2);
    SplitAtLast(p1, p2, '@', l1, l2);
    EqualFoldIffSameUpper(m1, m2);
  }

  /**
   * For methods without `:` and domains without `@`, two keys are equal
   * exactly when the patterns are equal and the methods and the domains are
   * equal up to case.
   */
  lemma HandlerKeyEqualIff(d1: string, m1: string, p1: string, d2: string, m2: string, p2: string)
    requires ':' !in m1 && ':' !in m2 && '@' !in d1 && '@' !in d2
    ensures HandlerKey(d1, m1, p1) == HandlerKey(d2, m2, p2) <==>
      EqualFold(m1, m2) && p1 == p2 && EqualFold(d1, d2)
  {
    if HandlerKey(d1, m1, p1) == HandlerKey(d2, m2, p2) {
      HandlerKeyDistinguishes(d1, m1, p1, d2, m2, p2);
    }
    if EqualFold(m1, m2) && p1 == p2 && EqualFold(d1, d2) {
      HandlerKeyIgnoresCase(d1, m1, d2, m2, p1);
    }
  }

  /** Case mapping neither creates nor removes a `:` or an `@`. */
  lemma CaseMappingKeeps(m: string, d: string)
    requires ':' !in m && '@' !in d
    ensures ':' !in ToUpper(m) && '@' !in ToLower(d)
  {
    assert forall k | 0 <= k < |m| :: ToUpper(m)[k] == UpperChar(m[k]);
    assert forall k | 0 <= k < |d| :: ToLower(d)[k] == LowerChar(d[k]);
  }

  /** Two readings `x + [c] + r` that agree, with no `c` in either `x`, split at the same place. */
  lemma SplitAtFirst(x1: string, x2: string, c: char, r1: string, r2: string)
    requires c !in x1 && c !in x2
    requires x1 + [c] + r1 == x2 + [c] + r2
    ensures x1 == x2 && r1 == r2
  {
    var z := x1 + [c] + r1;
    assert forall k | 0 <= k < |x1| :: z[k] == x1[k];
    assert forall k | 0 <= k < |x2| :: z[k] == x2[k];
    assert z[|x1|] == c;
    assert z == x2 + [c] + r2;
    assert z[|x2|] == c;
    assert IndexOf(z, c) == |x1|;
    assert IndexOf(z, c) == |x2|;
    assert x1 == z[..|x1|];
    assert r1 == z[|x1| + 1..];
  }

  /** Two readings `r + [c] + y` that agree, with no `c` in either `y`, split at the same place. */
  lemma SplitAtLast(r1: string, r2: string, c: char, y1: string, y2: string)
    requires c !in y1 && c !in y2
    requires r1 + [c] + y1 == r2 + [c] + y2
    ensures r1 == r2 && y1 == y2
  {
    var z := r1 + [c] + y1;
    var n := |z|;
    assert forall k | n - |y1| <= k < n :: z[k] == y1[k - (n - |y1|)];
    assert forall k | n - |y2| <= k < n :: z[k] == y2[k - (n - |y2|)];
    assert z[n - |y1| - 1] == c && z[n - |y2| - 1] == c;
    assert |y1| == |y2|;
    assert y1 == z[n - |y1|..];
    assert r1 == z[..n - |y1| - 1];
  }

  // ---------------------------------------------------------------------
  // isUriHasRule

  /** isUriHasRule: longer than one character and containing a slash followed by `:` or by `*`. */
  predicate IsUriHasRule(uri: string) {
    |uri| > 1 && (HasPair(uri, '/', ':') || HasPair(uri, '/', '*'))
  }

  predicate IsMarker(c: char) { c == ':' || c == '*' }

  /** A `:name` or `*name` segment. */
  predicate IsDynamicSegment(v: string) { |v| > 0 && IsMarker(v[0]) }

  /** A slash directly followed by `:` or `*`. */
  predicate HasMarkedSlash(s: string) {
    exists i | 0 <= i < |s| - 1 :: s[i] == '/' && IsMarker(s[i + 1])
  }

  /**
   * Seen through the segments the pattern tree works with: isUriHasRule holds
   * exactly when some segment of `uri[1..]` starts with `:` or `*`, where the
   * first segment only counts when the uri itself starts with `/`.
   */
  lemma IsUriHasRuleBySegments(uri: string)
    requires |uri| > 1
    ensures var segs := Split(uri[1..], '/');
      IsUriHasRule(uri) <==>
        exists j :: 0 <= j < |segs| && IsDynamicSegment(segs[j]) && (j > 0 || uri[0] == '/')
  {
    var s := uri[1..];
    var segs := Split(s, '/');
    assert IsUriHasRule(uri) <==> HasMarkedSlash(uri) by {
      if HasPair(uri, '/', ':') {
        var i :| 0 <= i < |uri| - 1 && uri[i] == '/' && uri[i + 1] == ':';
        assert IsMarker(uri[i + 1]);
      }
      if HasPair(uri, '/', '*') {
        var i :| 0 <= i < |uri| - 1 && uri[i] == '/' && uri[i + 1] == '*';
        assert IsMarker(uri[i + 1]);
      }
      if HasMarkedSlash(uri) {
        var i :| 0 <= i < |uri| - 1 && uri[i] == '/' && IsMarker(uri[i + 1]);
        assert HasPair(uri, '/', uri[i + 1]);
      }
    }
    assert HasMarkedSlash(uri) <==> (uri[0] == '/' && IsMarker(s[0])) || HasMarkedSlash(s) by {
      if HasMarkedSlash(uri) {
        var i :| 0 <= i < |uri| - 1 && uri[i] == '/' && IsMarker(uri[i + 1]);
        if i > 0 {
          assert s[i - 1] == '/' && IsMarker(s[i]);
        }
      }
      if HasMarkedSlash(s) {
        var i :| 0 <= i < |s| - 1 && s[i] == '/' && IsMarker(s[i + 1]);
        assert uri[i + 1] == '/' && IsMarker(uri[i + 2]);
      }
    }
    MarkedSlashInLaterSegment(s);
    FirstSegmentStart(s);
    if exists j :: 0 <= j < |segs| && IsDynamicSegment(segs[j]) && (j > 0 || uri[0] == '/') {
      var j :| 0 <= j < |segs| && IsDynamicSegment(segs[j]) && (j > 0 || uri[0] == '/');
      assert j > 0 ==> LaterDynamic(segs);
    }
  }

  /** The first segment starts with the string's first character when it is not a slash. */
  lemma FirstSegmentStart(s: string)
    ensures IsDynamicSegment(Split(s, '/')[0]) <==> |s| > 0 && IsMarker(s[0])
  {
    var i := IndexOf(s, '/');
    if i < |s| {
      assert Split(s, '/')[0] == s[..i];
    }
  }

  /** Some segment after the first is dynamic. */
  predicate LaterDynamic(segs: seq<string>) {
    exists j :: 0 < j < |segs| && IsDynamicSegment(segs[j])
  }

  /** A marked slash inside `s` is exactly a dynamic segment after the first. */
  lemma {:induction false} MarkedSlashInLaterSegment(s: string)
    ensures HasMarkedSlash(s) <==> LaterDynamic(Split(s, '/'))
    decreases |s|
  {
    var segs := Split(s, '/');
    var i := IndexOf(s, '/');
    if i == |s| {
      assert segs == [s];
      assert !HasMarkedSlash(s);
    } else {
      var t := s[i + 1..];
      var tsegs := Split(t, '/');
      assert segs == [s[..i]] + tsegs;
      MarkedSlashInLaterSegment(t);
      FirstSegmentStart(t);
      MarkedSlashStep(s, i);
      LaterDynamicStep(s[..i], tsegs);
    }
  }

  /** Past the first slash of `s`, a marked slash is the first one or lies inside the rest. */
  lemma MarkedSlashStep(s: string, i: nat)
    requires i < |s| && s[i] == '/' && '/' !in s[..i]
    ensures var t := s[i + 1..];
      HasMarkedSlash(s) <==> (|t| > 0 && IsMarker(t[0])) || HasMarkedSlash(t)
  {
    var t := s[i + 1..];
    if HasMarkedSlash(s) {
      var k :| 0 <= k < |s| - 1 && s[k] == '/' && IsMarker(s[k + 1]);
      if k > i {
        assert t[k - i - 1] == '/' && IsMarker(t[k - i]);
      }
    }
    if HasMarkedSlash(t) {
      var k :| 0 <= k < |t| - 1 && t[k] == '/' && IsMarker(t[k + 1]);
      assert s[k + i + 1] == '/' && IsMarker(s[k + i + 2]);
    }
  }

  /** Putting a segment in front turns "any segment is dynamic" into "a later one is". */
  lemma LaterDynamicStep(first: string, rest: seq<string>)
    requires |rest| >= 1
    ensures LaterDynamic([first] + rest) <==> IsDynamicSegment(rest[0]) || LaterDynamic(rest)
  {
    var segs := [first] + rest;
    if LaterDynamic(segs) {
      var j :| 0 < j < |segs| && IsDynamicSegment(segs[j]);
      assert segs[j] == rest[j - 1];
    }
    if LaterDynamic(rest) {
      var j :| 0 < j < |rest| && IsDynamicSegment(rest[j]);
      assert segs[j + 1] == rest[j];
    }
    assert segs[1] == rest[0];
  }
}
