/**
 * patternToRegRule and the use searchHandler makes of its result: a uri with
 * `:name` and `*name` segments becomes an anchored expression plus the
 * comma-joined parameter names, a request path is matched against it, and
 * the captures are bound to the names.
 *
 * The expression is kept as a token list (one token per encoded segment)
 * rather than as text; RegexText renders it back to the text the source
 * builds, and MatchTokens gives that text's meaning under Go's regexp rules.
 */
module RegRule {
  import opened Options
  import opened Strings

  /** One encoded segment: `/` + literal, `/([\w\.\-]+)` or `/(.*)`. */
  datatype Token = Lit(text: string) | Param(name: string) | Wild(name: string)

  /**
   * The expression: a rule shorter than two characters is returned as it is;
   * otherwise `^`, one piece per token, and a closing `$` unless a wildcard
   * ended the compilation.
   */
  datatype Regex = Raw(text: string) | Anchored(tokens: seq<Token>, closed: bool)

  /** The two results of patternToRegRule. */
  datatype RegRule = RegRule(regex: Regex, names: string)

  // ---------------------------------------------------------------------
  // Compilation, as the source's loop does it

  /** `if len(names) > 0 { names += "," }; names += name` */
  function AppendName(names: string, name: string): string {
    (if |names| > 0 then names + "," else names) + name
  }

  /** The loop of patternToRegRule over the remaining segments, with its two accumulators. */
  function CompileSegments(segs: seq<string>, tokens: seq<Token>, names: string): (r: RegRule)
    ensures r.regex.Anchored?
    decreases |segs|
  {
    if segs == [] then RegRule(Anchored(tokens, true), names)
    else
      var v := segs[0];
      if |v| == 0 then CompileSegments(segs[1..], tokens, names)
      else if v[0] == ':' then CompileSegments(segs[1..], tokens + [Param(v[1..])], AppendName(names, v[1..]))
      else if v[0] == '*' then RegRule(Anchored(tokens + [Wild(v[1..])], false), AppendName(names, v[1..]))
      else CompileSegments(segs[1..], tokens + [Lit(v)], names)
  }

  /** patternToRegRule(rule). */
  function PatternToRegRule(rule: string): (r: RegRule)
    ensures r.regex.Anchored? <==> |rule| >= 2
    ensures |rule| < 2 ==> r.regex.text == rule && r.names == ""
  {
    if |rule| < 2 then RegRule(Raw(rule), "")
    else CompileSegments(Split(rule[1..], '/'), [], "")
  }

  // ---------------------------------------------------------------------
  // The expression as text

  function TokenText(t: Token): string {
    match t
    case Lit(s) => "/" + s
    case Param(_) => "/([\\w\\.\\-]+)"
    case Wild(_) => "/(.*)"
  }

  function TokensText(ts: seq<Token>): string
    decreases |ts|
  {
    if ts == [] then "" else TokenText(ts[0]) + TokensText(ts[1..])
  }

  /** The regular-expression text patternToRegRule returns. */
  function RegexText(rx: Regex): string {
    match rx
    case Raw(s) => s
    case Anchored(ts, closed) => "^" + TokensText(ts) + (if closed then "$" else "")
  }

  // ---------------------------------------------------------------------
  // Reference description of the compiled rule, segment by segment

  /** The token a non-empty segment stands for. */
  function SegmentToken(v: string): Token
    requires |v| > 0
  {
    if v[0] == ':' then Param(v[1..]) else if v[0] == '*' then Wild(v[1..]) else Lit(v)
  }

  /** One token per non-empty segment, in order, ignoring where a wildcard stops compilation. */
  function SegmentTokens(segs: seq<string>): seq<Token>
    decreases |segs|
  {
    if segs == [] then []
    else (if |segs[0]| == 0 then [] else [SegmentToken(segs[0])]) + SegmentTokens(segs[1..])
  }

  predicate HasWild(ts: seq<Token>)
    decreases |ts|
  {
    ts != [] && (ts[0].Wild? || HasWild(ts[1..]))
  }

  /** The tokens up to and including the first wildcard. */
  function UpToWild(ts: seq<Token>): seq<Token>
    decreases |ts|
  {
    if ts == [] then []
    else if ts[0].Wild? then [ts[0]]
    else [ts[0]] + UpToWild(ts[1..])
  }

  /** The names of the capturing tokens, in order. */
  function ParamNames(ts: seq<Token>): seq<string>
    decreases |ts|
  {
    if ts == [] then []
    else (if ts[0].Lit? then [] else [ts[0].name]) + ParamNames(ts[1..])
  }

  /** The names with the leading empty ones removed. */
  function DropLeadingEmpty(ns: seq<string>): seq<string>
    decreases |ns|
  {
    if ns != [] && ns[0] == "" then DropLeadingEmpty(ns[1..]) else ns
  }

  /** A wildcard can only be the last token, and the rule is closed exactly when there is none. */
  predicate WellFormed(ts: seq<Token>, closed: bool) {
    (forall i :: 0 <= i < |ts| - 1 ==> !ts[i].Wild?) && (closed <==> !HasWild(ts))
  }

  /** The names string as the accumulator builds it from a starting value. */
  function FoldNames(acc: string, ns: seq<string>): string
    decreases |ns|
  {
    if ns == [] then acc else FoldNames(AppendName(acc, ns[0]), ns[1..])
  }

  /**
   * The shape of the compiled rule: for a rule of two or more characters the
   * tokens are those of the non-empty segments of `rule[1..]` up to and
   * including the first `*name` segment, the `$` is there exactly when no
   * segment is a wildcard, and the names are the `:`/`*` names in order,
   * comma-joined (names that are empty before the first non-empty one leave
   * no trace, as the accumulator skips the comma while it is empty).
   */
  lemma PatternToRegRuleShape(rule: string)
    requires |rule| >= 2
    ensures var ts := SegmentTokens(Split(rule[1..], '/'));
      var r := PatternToRegRule(rule);
      && r.regex == Anchored(UpToWild(ts), !HasWild(ts))
      && r.names == Join(DropLeadingEmpty(ParamNames(UpToWild(ts))), ',')
      && WellFormed(r.regex.tokens, r.regex.closed)
  {
    var ts := SegmentTokens(Split(rule[1..], '/'));
    CompileSegmentsIs(Split(rule[1..], '/'), [], "");
    assert [] + UpToWild(ts) == UpToWild(ts);
    FoldNamesFromEmpty(ParamNames(UpToWild(ts)));
    UpToWildWellFormed(ts);
  }

  /** The text of a compiled rule starts with `^` and ends with `$` exactly when it has no wildcard. */
  lemma RegexTextShape(rule: string)
    requires |rule| >= 2
    ensures var text := RegexText(PatternToRegRule(rule).regex);
      var ts := SegmentTokens(Split(rule[1..], '/'));
      && |text| > 0 && text[0] == '^'
      && (text[|text| - 1] == '$' <==> !HasWild(ts))
  {
    var ts := SegmentTokens(Split(rule[1..], '/'));
    PatternToRegRuleShape(rule);
    var toks := UpToWild(ts);
    if HasWild(ts) {
      UpToWildEndsWithWild(ts);
      TokensTextEnd(toks);
    }
  }

  lemma {:induction false} UpToWildEndsWithWild(ts: seq<Token>)
    requires HasWild(ts)
    ensures var u := UpToWild(ts); |u| > 0 && u[|u| - 1].Wild?
    decreases |ts|
  {
    if !ts[0].Wild? {
      UpToWildEndsWithWild(ts[1..]);
    }
  }

  lemma {:induction false} TokensTextEnd(ts: seq<Token>)
    requires |ts| > 0 && ts[|ts| - 1].Wild?
    ensures var t := TokensText(ts); |t| > 0 && t[|t| - 1] == ')'
    decreases |ts|
  {
    if |ts| > 1 {
      TokensTextEnd(ts[1..]);
    }
  }

  lemma {:induction false} CompileSegmentsIs(segs: seq<string>, tokens: seq<Token>, names: string)
    ensures var ts := SegmentTokens(segs);
      CompileSegments(segs, tokens, names)
        == RegRule(Anchored(tokens + UpToWild(ts), !HasWild(ts)), FoldNames(names, ParamNames(UpToWild(ts))))
    decreases |segs|
  {
    if segs != [] {
      var v := segs[0];
      var rest := SegmentTokens(segs[1..]);
      if |v| == 0 {
        assert SegmentTokens(segs) == rest;
        CompileSegmentsIs(segs[1..], tokens, names);
      } else {
        var t := SegmentToken(v);
        assert SegmentTokens(segs) == [t] + rest;
        assert ([t] + rest)[1..] == rest;
        if t.Wild? {
          assert UpToWild([t] + rest) == [t];
          assert ParamNames([t]) == [t.name];
          assert FoldNames(names, [t.name]) == AppendName(names, t.name);
        } else {
          var u := UpToWild(rest);
          assert UpToWild([t] + rest) == [t] + u;
          assert ([t] + u)[1..] == u;
          assert tokens + [t] + u == tokens + ([t] + u);
          if t.Param? {
            var pn := ParamNames(u);
            assert ParamNames([t] + u) == [t.name] + pn;
            assert ([t.name] + pn)[1..] == pn;
            assert FoldNames(names, [t.name] + pn) == FoldNames(AppendName(names, t.name), pn);
            CompileSegmentsIs(segs[1..], tokens + [t], AppendName(names, v[1..]));
          } else {
            assert ParamNames([t] + u) == ParamNames(u);
            CompileSegmentsIs(segs[1..], tokens + [t], names);
          }
        }
      }
    }
  }

  lemma {:induction false} UpToWildWellFormed(ts: seq<Token>)
    ensures WellFormed(UpToWild(ts), !HasWild(ts))
    ensures HasWild(UpToWild(ts)) == HasWild(ts)
    decreases |ts|
  {
    if ts != [] && !ts[0].Wild? {
      UpToWildWellFormed(ts[1..]);
      var u := UpToWild(ts);
      assert u == [ts[0]] + UpToWild(ts[1..]);
      assert u[1..] == UpToWild(ts[1..]);
    }
  }

  /** Join with one more piece in front. */
  lemma JoinCons(a: string, rest: seq<string>, sep: char)
    ensures Join([a] + rest, sep) == if rest == [] then a else a + [sep] + Join(rest, sep)
  {
    assert ([a] + rest)[1..] == rest;
  }

  lemma {:induction false} FoldNamesFromNonEmpty(acc: string, ns: seq<string>)
    requires |acc| > 0
    ensures FoldNames(acc, ns) == Join([acc] + ns, ',')
    decreases |ns|
  {
    if ns == [] {
      JoinCons(acc, [], ',');
    } else {
      var next := acc + "," + ns[0];
      FoldNamesFromNonEmpty(next, ns[1..]);
      JoinCons(next, ns[1..], ',');
      JoinCons(ns[0], ns[1..], ',');
      JoinCons(acc, ns, ',');
    }
  }

  lemma {:induction false} FoldNamesFromEmpty(ns: seq<string>)
    ensures FoldNames("", ns) == Join(DropLeadingEmpty(ns), ',')
    decreases |ns|
  {
    if ns != [] {
      if ns[0] == "" {
        assert AppendName("", ns[0]) == "";
        FoldNamesFromEmpty(ns[1..]);
      } else {
        assert AppendName("", ns[0]) == ns[0];
        FoldNamesFromNonEmpty(ns[0], ns[1..]);
        assert [ns[0]] + ns[1..] == ns;
      }
    }
  }

  // ---------------------------------------------------------------------
  // Matching a request path

  /**
   * The match of `^` + tokens (+ `$` when closed) against `s`, giving the
   * captures in order. A literal must appear exactly; `([\w\.\-]+)` takes
   * the longest run of rule characters, which must be non-empty (the next
   * piece starts with `/` or is the end, so backtracking cannot help); `(.*)`
   * takes the rest of the line and ends the expression.
   */
  function MatchTokens(ts: seq<Token>, closed: bool, s: string): Option<seq<string>>
    decreases |ts|
  {
    if ts == [] then (if closed && s != "" then None else Some([]))
    else if |s| == 0 || s[0] != '/' then None
    else match ts[0]
      case Lit(t) =>
        if t <= s[1..] then MatchTokens(ts[1..], closed, s[1 + |t|..]) else None
      case Param(_) =>
        var e := RunEnd(s, 1, IsRuleChar);
        if e == 1 then None
        else
          var rest := MatchTokens(ts[1..], closed, s[e..]);
          if rest.Some? then Some([s[1..e]] + rest.value) else None
      case Wild(_) => Some([s[1..RunEnd(s, 1, NotNewline)]])
  }

  /** gregx.MatchString on an anchored rule: the captures, or no match. */
  function MatchRule(rx: Regex, path: string): Option<seq<string>>
    requires rx.Anchored?
  {
    MatchTokens(rx.tokens, rx.closed, path)
  }

  /** Captures that fit the tokens: non-empty rule characters for `:name`, one line for `*name`. */
  predicate Fits(ts: seq<Token>, caps: seq<string>)
    decreases |ts|
  {
    if ts == [] then caps == []
    else match ts[0]
      case Lit(_) => Fits(ts[1..], caps)
      case Param(_) =>
        |caps| > 0 && |caps[0]| > 0 && (forall k :: 0 <= k < |caps[0]| ==> IsRuleChar(caps[0][k]))
        && Fits(ts[1..], caps[1..])
      case Wild(_) => |caps| > 0 && '\n' !in caps[0] && Fits(ts[1..], caps[1..])
  }

  /** The path the tokens spell out with these captures in the capturing places. */
  function Instantiate(ts: seq<Token>, caps: seq<string>): string
    requires Fits(ts, caps)
    decreases |ts|
  {
    if ts == [] then ""
    else match ts[0]
      case Lit(t) => "/" + t + Instantiate(ts[1..], caps)
      case Param(_) => "/" + caps[0] + Instantiate(ts[1..], caps[1..])
      case Wild(_) => "/" + caps[0] + Instantiate(ts[1..], caps[1..])
  }

  /**
   * Completeness: a well-formed rule matches the path it spells out with any
   * fitting captures, and gives those captures back.
   */
  lemma {:induction false} MatchInstantiate(ts: seq<Token>, closed: bool, caps: seq<string>)
    requires WellFormed(ts, closed) && Fits(ts, caps)
    ensures MatchTokens(ts, closed, Instantiate(ts, caps)) == Some(caps)
    decreases |ts|
  {
    if ts != [] {
      match ts[0]
      case Lit(_) =>
        TailWellFormed(ts, closed);
        MatchInstantiate(ts[1..], closed, caps);
        LitInstantiated(ts, closed, caps);
      case Param(_) =>
        TailWellFormed(ts, closed);
        MatchInstantiate(ts[1..], closed, caps[1..]);
        ParamInstantiated(ts, closed, caps);
      case Wild(_) =>
        WildInstantiated(ts, closed, caps);
    }
  }

  /** In a well-formed rule a wildcard can only be the last token. */
  lemma WildIsLast(ts: seq<Token>, closed: bool)
    requires WellFormed(ts, closed) && ts != [] && ts[0].Wild?
    ensures |ts| == 1
  {
    assert forall i :: 0 <= i < |ts| - 1 ==> !ts[i].Wild?;
  }

  /** A leading literal is matched exactly and the rest is left to the tail. */
  lemma LitInstantiated(ts: seq<Token>, closed: bool, caps: seq<string>)
    requires ts != [] && ts[0].Lit? && Fits(ts, caps)
    requires MatchTokens(ts[1..], closed, Instantiate(ts[1..], caps)) == Some(caps)
    ensures MatchTokens(ts, closed, Instantiate(ts, caps)) == Some(caps)
  {
    var t := ts[0].text;
    var tail := Instantiate(ts[1..], caps);
    assert Instantiate(ts, caps) == "/" + t + tail;
    SlashThen(t, tail);
    MatchLit(ts, closed, "/" + t + tail);
  }

  /** The match step for a leading literal that the path starts with. */
  lemma MatchLit(ts: seq<Token>, closed: bool, s: string)
    requires ts != [] && ts[0].Lit? && |s| > 0 && s[0] == '/' && ts[0].text <= s[1..]
    ensures MatchTokens(ts, closed, s) == MatchTokens(ts[1..], closed, s[1 + |ts[0].text|..])
  {
  }

  /** The match step for a leading parameter that finds at least one rule character. */
  lemma MatchParam(ts: seq<Token>, closed: bool, s: string)
    requires ts != [] && ts[0].Param? && |s| > 0 && s[0] == '/' && RunEnd(s, 1, IsRuleChar) > 1
    ensures var e := RunEnd(s, 1, IsRuleChar);
      var rest := MatchTokens(ts[1..], closed, s[e..]);
      MatchTokens(ts, closed, s) == if rest.Some? then Some([s[1..e]] + rest.value) else None
  {
  }

  /** A path that starts with `/` and then x is `/` + x + the rest. */
  lemma SlashSplit(s: string, x: string)
    requires |s| > 0 && s[0] == '/' && x <= s[1..]
    ensures s == "/" + x + s[1 + |x|..]
  {
    assert s[1..] == x + s[1 + |x|..];
    assert s == [s[0]] + s[1..];
  }

  /** The pieces of `/` + x + y. */
  lemma SlashThen(x: string, y: string)
    ensures var s := "/" + x + y;
      && |s| > 0 && s[0] == '/' && x <= s[1..] && s[1 + |x|..] == y
  {
    var s := "/" + x + y;
    assert s[1..] == x + y;
    assert (x + y)[..|x|] == x;
  }

  /** A leading parameter takes exactly its capture, since the tail starts with `/` or is empty. */
  lemma ParamInstantiated(ts: seq<Token>, closed: bool, caps: seq<string>)
    requires ts != [] && ts[0].Param? && Fits(ts, caps)
    requires MatchTokens(ts[1..], closed, Instantiate(ts[1..], caps[1..])) == Some(caps[1..])
    ensures MatchTokens(ts, closed, Instantiate(ts, caps)) == Some(caps)
  {
    var c := caps[0];
    var tail := Instantiate(ts[1..], caps[1..]);
    assert Instantiate(ts, caps) == "/" + c + tail;
    InstantiateStart(ts[1..], caps[1..]);
    ParamCaptures(ts, closed, c, tail, caps[1..]);
    assert [c] + caps[1..] == caps;
  }

  /** `/` + c + tail, with c a run of rule characters and tail starting with `/`, gives c as the first capture. */
  lemma ParamCaptures(ts: seq<Token>, closed: bool, c: string, tail: string, m: seq<string>)
    requires ts != [] && ts[0].Param?
    requires |c| > 0 && forall k :: 0 <= k < |c| ==> IsRuleChar(c[k])
    requires tail == "" || tail[0] == '/'
    requires MatchTokens(ts[1..], closed, tail) == Some(m)
    ensures MatchTokens(ts, closed, "/" + c + tail) == Some([c] + m)
  {
    var s := "/" + c + tail;
    CaptureRun(c, tail);
    SlashThen(c, tail);
    assert s[1..1 + |c|] == c by {
      assert s[1..][..|c|] == c;
    }
    MatchParam(ts, closed, s);
  }

  /** The run of rule characters after the `/` of `/` + c + tail is exactly c. */
  lemma CaptureRun(c: string, tail: string)
    requires |c| > 0 && forall k :: 0 <= k < |c| ==> IsRuleChar(c[k])
    requires tail == "" || tail[0] == '/'
    ensures RunEnd("/" + c + tail, 1, IsRuleChar) == 1 + |c|
  {
    var s := "/" + c + tail;
    assert forall k | 1 <= k < 1 + |c| :: s[k] == c[k - 1];
    assert 1 + |c| < |s| ==> s[1 + |c|] == tail[0];
    RunEndIs(s, 1, IsRuleChar, 1 + |c|);
  }

  /** A wildcard, necessarily the last token, takes the rest of the path. */
  lemma WildInstantiated(ts: seq<Token>, closed: bool, caps: seq<string>)
    requires WellFormed(ts, closed) && ts != [] && ts[0].Wild? && Fits(ts, caps)
    ensures MatchTokens(ts, closed, Instantiate(ts, caps)) == Some(caps)
  {
    var s := Instantiate(ts, caps);
    var c := caps[0];
    WildIsLast(ts, closed);
    assert ts[1..] == [];
    assert caps[1..] == [];
    assert Instantiate(ts[1..], caps[1..]) == "";
    assert s == "/" + c;
    assert forall k | 1 <= k < |s| :: s[k] == c[k - 1];
    RunEndIs(s, 1, NotNewline, |s|);
    assert s[1..|s|] == c;
    assert [c] == caps;
  }

  /** Dropping a leading literal or parameter keeps a rule well formed. */
  lemma TailWellFormed(ts: seq<Token>, closed: bool)
    requires WellFormed(ts, closed) && ts != [] && !ts[0].Wild?
    ensures WellFormed(ts[1..], closed)
  {
    assert forall i | 0 <= i < |ts| - 2 :: ts[1..][i] == ts[i + 1];
  }

  /** A spelled-out path is empty or starts with `/`. */
  lemma InstantiateStart(ts: seq<Token>, caps: seq<string>)
    requires Fits(ts, caps)
    ensures var s := Instantiate(ts, caps); s == "" || s[0] == '/'
  {
  }

  /**
   * Soundness: what a well-formed rule matches is spelled out by the
   * captures it returns, exactly when the rule is closed and up to the first
   * newline after a wildcard otherwise.
   */
  lemma {:induction false} MatchSound(ts: seq<Token>, closed: bool, s: string)
    requires WellFormed(ts, closed) && MatchTokens(ts, closed, s).Some?
    ensures var caps := MatchTokens(ts, closed, s).value;
      && Fits(ts, caps)
      && (closed ==> Instantiate(ts, caps) == s)
      && (!closed ==> Instantiate(ts, caps) <= s)
    decreases |ts|
  {
    if ts != [] {
      if ts[0].Wild? {
        MatchSoundWild(ts, closed, s);
      } else {
        TailWellFormed(ts, closed);
        var tail := if ts[0].Lit? then s[1 + |ts[0].text|..] else s[RunEnd(s, 1, IsRuleChar)..];
        MatchSound(ts[1..], closed, tail);
        MatchSoundStep(ts, closed, s);
      }
    }
  }

  /** One literal or parameter step of MatchSound, given the claim for the rest of the path. */
  lemma MatchSoundStep(ts: seq<Token>, closed: bool, s: string)
    requires ts != [] && !ts[0].Wild? && MatchTokens(ts, closed, s).Some?
    requires var tail := if ts[0].Lit? then s[1 + |ts[0].text|..] else s[RunEnd(s, 1, IsRuleChar)..];
      var m := MatchTokens(ts[1..], closed, tail);
      && m.Some? && Fits(ts[1..], m.value)
      && (closed ==> Instantiate(ts[1..], m.value) == tail)
      && (!closed ==> Instantiate(ts[1..], m.value) <= tail)
    ensures var caps := MatchTokens(ts, closed, s).value;
      && Fits(ts, caps)
      && (closed ==> Instantiate(ts, caps) == s)
      && (!closed ==> Instantiate(ts, caps) <= s)
  {
    if ts[0].Lit? {
      var t := ts[0].text;
      var tail := s[1 + |t|..];
      var m := MatchTokens(ts[1..], closed, tail).value;
      LitStep(ts, closed, s, m);
    } else {
      var e := RunEnd(s, 1, IsRuleChar);
      var m := MatchTokens(ts[1..], closed, s[e..]).value;
      ParamStep(ts, closed, s, m);
    }
  }

  lemma LitStep(ts: seq<Token>, closed: bool, s: string, m: seq<string>)
    requires ts != [] && ts[0].Lit? && |s| > 0 && s[0] == '/' && ts[0].text <= s[1..]
    requires MatchTokens(ts[1..], closed, s[1 + |ts[0].text|..]) == Some(m)
    requires Fits(ts[1..], m)
    requires closed ==> Instantiate(ts[1..], m) == s[1 + |ts[0].text|..]
    requires !closed ==> Instantiate(ts[1..], m) <= s[1 + |ts[0].text|..]
    ensures MatchTokens(ts, closed, s) == Some(m) && Fits(ts, m)
    ensures closed ==> Instantiate(ts, m) == s
    ensures !closed ==> Instantiate(ts, m) <= s
  {
    var t := ts[0].text;
    var tail := s[1 + |t|..];
    var inst := Instantiate(ts[1..], m);
    MatchLit(ts, closed, s);
    assert Instantiate(ts, m) == "/" + t + inst;
    SlashSplit(s, t);
    PrefixExtend("/" + t, inst, tail);
  }

  lemma ParamStep(ts: seq<Token>, closed: bool, s: string, m: seq<string>)
    requires ts != [] && ts[0].Param? && |s| > 0 && s[0] == '/' && RunEnd(s, 1, IsRuleChar) > 1
    requires MatchTokens(ts[1..], closed, s[RunEnd(s, 1, IsRuleChar)..]) == Some(m)
    requires Fits(ts[1..], m)
    requires closed ==> Instantiate(ts[1..], m) == s[RunEnd(s, 1, IsRuleChar)..]
    requires !closed ==> Instantiate(ts[1..], m) <= s[RunEnd(s, 1, IsRuleChar)..]
    ensures var e := RunEnd(s, 1, IsRuleChar);
      && MatchTokens(ts, closed, s) == Some([s[1..e]] + m)
      && Fits(ts, [s[1..e]] + m)
      && (closed ==> Instantiate(ts, [s[1..e]] + m) == s)
      && (!closed ==> Instantiate(ts, [s[1..e]] + m) <= s)
  {
    var e := RunEnd(s, 1, IsRuleChar);
    MatchParam(ts, closed, s);
    var c := s[1..e];
    var caps := [c] + m;
    assert caps[0] == c && caps[1..] == m;
    assert Fits(ts, caps);
    var tail := s[e..];
    var inst := Instantiate(ts[1..], m);
    assert Instantiate(ts, caps) == "/" + c + inst;
    SlashSlice(s, e);
    PrefixExtend("/" + c, inst, tail);
  }

  /** A line that starts with a slash is that slash, the run after it, and the rest. */
  lemma SlashSlice(s: string, e: int)
    requires 1 <= e <= |s| && s[0] == '/'
    ensures s == "/" + s[1..e] + s[e..]
  {
    assert s == [s[0]] + s[1..e] + s[e..];
  }

  /** The wildcard step of MatchSound: the capture is the rest of the line. */
  lemma MatchSoundWild(ts: seq<Token>, closed: bool, s: string)
    requires WellFormed(ts, closed) && ts != [] && ts[0].Wild? && MatchTokens(ts, closed, s).Some?
    ensures var caps := MatchTokens(ts, closed, s).value;
      && Fits(ts, caps)
      && !closed
      && Instantiate(ts, caps) <= s
  {
    var caps := MatchTokens(ts, closed, s).value;
    var e := RunEnd(s, 1, NotNewline);
    assert |ts| == 1;
    assert caps == [s[1..e]];
    assert caps[1..] == [];
    assert Instantiate(ts, caps) == "/" + s[1..e];
    assert s == "/" + s[1..e] + s[e..];
  }

  /** A common front keeps a prefix a prefix. */
  lemma PrefixExtend(a: string, x: string, y: string)
    requires x <= y
    ensures a + x <= a + y
  {
    assert a + y == (a + x) + y[|x|..];
  }

  // ---------------------------------------------------------------------
  // Binding captures to names

  /** `for index, name := range names { values[name] = match[index+1] }`: later names overwrite earlier ones. */
  function BindAll(ns: seq<string>, caps: seq<string>): map<string, string>
    requires |ns| <= |caps|
    decreases |ns|
  {
    if ns == [] then map[]
    else BindAll(ns[..|ns| - 1], caps)[ns[|ns| - 1] := caps[|ns| - 1]]
  }

  /**
   * searchHandler's binding step: only for a non-empty names string, and
   * only when the match (the whole match plus one entry per group) has more
   * entries than the names string has comma-separated names.
   */
  function BindParams(names: string, caps: seq<string>): map<string, string> {
    if |names| == 0 then map[]
    else
      var ns := Split(names, ',');
      if |caps| + 1 > |ns| then BindAll(ns, caps) else map[]
  }

  /**
   * A repeated name is bound to the capture of its last occurrence: each
   * later assignment to `r.values[name]` overwrites the earlier one.
   */
  lemma {:induction false} BindAllLastWins(ns: seq<string>, caps: seq<string>, k: nat)
    requires |ns| <= |caps| && k < |ns|
    requires forall j :: k < j < |ns| ==> ns[j] != ns[k]
    ensures ns[k] in BindAll(ns, caps) && BindAll(ns, caps)[ns[k]] == caps[k]
    decreases |ns|
  {
    if k < |ns| - 1 {
      var init := ns[..|ns| - 1];
      assert forall j :: 0 <= j < |init| ==> init[j] == ns[j];
      BindAllLastWins(init, caps, k);
    }
  }

  /** With distinct names, name i is bound to capture i and nothing else is bound. */
  lemma {:induction false} BindAllPositional(ns: seq<string>, caps: seq<string>)
    requires |ns| <= |caps|
    requires forall i, j :: 0 <= i < j < |ns| ==> ns[i] != ns[j]
    ensures var b := BindAll(ns, caps);
      && b.Keys == (set i | 0 <= i < |ns| :: ns[i])
      && forall i :: 0 <= i < |ns| ==> b[ns[i]] == caps[i]
    decreases |ns|
  {
    if ns != [] {
      var init := ns[..|ns| - 1];
      BindAllPositional(init, caps);
      assert forall i | 0 <= i < |init| :: init[i] == ns[i];
      NamesOfInit(ns);
    }
  }

  /** The names of a list are those of all but its last entry, plus the last. */
  lemma NamesOfInit(ns: seq<string>)
    requires ns != []
    ensures var init := ns[..|ns| - 1];
      (set i | 0 <= i < |ns| :: ns[i]) == (set i | 0 <= i < |init| :: init[i]) + {ns[|ns| - 1]}
  {
    var init := ns[..|ns| - 1];
    var all := set i | 0 <= i < |ns| :: ns[i];
    var front := set i | 0 <= i < |init| :: init[i];
    forall i | 0 <= i < |ns|
      ensures ns[i] in front + {ns[|ns| - 1]}
    {
      if i < |init| {
        assert init[i] == ns[i];
      }
    }
    forall x | x in front
      ensures x in all
    {
      var i :| 0 <= i < |init| && init[i] == x;
      assert ns[i] == x;
    }
  }

  /** Non-empty, comma-free names survive being joined by commas and split again. */
  lemma NamesRoundTrip(ns: seq<string>)
    requires ns != [] && forall i :: 0 <= i < |ns| ==> ns[i] != "" && ',' !in ns[i]
    ensures |Join(ns, ',')| > 0 && Split(Join(ns, ','), ',') == ns
  {
    JoinCons(ns[0], ns[1..], ',');
    assert [ns[0]] + ns[1..] == ns;
    SplitOfJoin(ns, ',');
  }

  /** Binding under the comma-joined names binds each name to its capture and nothing else. */
  lemma BindJoinedNames(ns: seq<string>, caps: seq<string>)
    requires |caps| == |ns|
    requires forall i :: 0 <= i < |ns| ==> ns[i] != "" && ',' !in ns[i]
    requires forall i, j :: 0 <= i < j < |ns| ==> ns[i] != ns[j]
    ensures var b := BindParams(Join(ns, ','), caps);
      && b.Keys == (set i | 0 <= i < |ns| :: ns[i])
      && forall i :: 0 <= i < |ns| ==> b[ns[i]] == caps[i]
  {
    if ns != [] {
      NamesRoundTrip(ns);
      BindAllPositional(ns, caps);
    }
  }

  /** The parameter names of a rule, in order, as a list. */
  function RuleNames(rule: string): seq<string>
    requires |rule| >= 2
  {
    ParamNames(UpToWild(SegmentTokens(Split(rule[1..], '/'))))
  }

  /**
   * The parameters searchHandler binds on a match: when the rule's names are
   * non-empty, comma-free and distinct, there is one capture per name, each
   * name is bound to its capture, and no other name is bound.
   */
  lemma CompiledRuleBinding(rule: string, path: string)
    requires |rule| >= 2
    requires var ns := RuleNames(rule);
      forall i :: 0 <= i < |ns| ==> ns[i] != "" && ',' !in ns[i]
    requires var ns := RuleNames(rule);
      forall i, j :: 0 <= i < j < |ns| ==> ns[i] != ns[j]
    requires MatchRule(PatternToRegRule(rule).regex, path).Some?
    ensures var ns := RuleNames(rule);
      var r := PatternToRegRule(rule);
      var caps := MatchRule(r.regex, path).value;
      var b := BindParams(r.names, caps);
      && |caps| == |ns|
      && b.Keys == (set i | 0 <= i < |ns| :: ns[i])
      && forall i :: 0 <= i < |ns| ==> b[ns[i]] == caps[i]
  {
    var ns := RuleNames(rule);
    var r := PatternToRegRule(rule);
    PatternToRegRuleShape(rule);
    var ts := r.regex.tokens;
    var caps := MatchRule(r.regex, path).value;
    MatchSound(ts, r.regex.closed, path);
    FitsCount(ts, caps);
    assert DropLeadingEmpty(ns) == ns;
    BindJoinedNames(ns, caps);
  }

  /** Fitting captures are exactly one per capturing token. */
  lemma {:induction false} FitsCount(ts: seq<Token>, caps: seq<string>)
    requires Fits(ts, caps)
    ensures |caps| == |ParamNames(ts)|
    decreases |ts|
  {
    if ts != [] {
      if ts[0].Lit? {
        FitsCount(ts[1..], caps);
      } else {
        FitsCount(ts[1..], caps[1..]);
      }
    }
  }
}
