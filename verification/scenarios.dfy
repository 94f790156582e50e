/**
 * Worked registrations and lookups on a small configuration: the default
 * domain "default", the sentinel method "ALL" and the two methods GET and
 * POST. Each shows one behaviour of the router on concrete patterns.
 */
module Scenarios {
  import opened Options
  import opened Strings
  import opened Entities
  import opened Priority
  import opened Pattern
  import opened RegRule
  import opened Tree
  import opened Router

  /** The server configuration of the scenarios. */
  const Example := Config("default", "ALL", {"GET", "POST"})

  /** The pieces of "user/:id". */
  lemma SplitUserId()
    ensures Split("user/:id", '/') == ["user", ":id"]
  {
    assert Join(["user", ":id"], '/') == "user/:id";
    SplitOfJoin(["user", ":id"], '/');
  }

  /** The route "/user/:id" as setHandler stamps it: every method, the default domain, priority 2. */
  function UserRoute(h: HandlerId): HandlerItem {
    HandlerItem("/user/:id", "default", "ALL", 2, h)
  }

  /** The default domain's tree after registering UserRoute: user, then the shared `/` edge, then the leaf. */
  function UserTree(h: HandlerId): Node {
    Node(map["user" := Node(map["/" := Node(map[], Some([UserRoute(h)]))], None)], None)
  }

  /** "/user/:id" parses with both defaults, is dynamic, and is stored two edges down. */
  lemma UserIdParsed(pat: string)
    requires pat == "/user/:id"
    ensures ParsePattern(Example, pat) == Ok(Parsed("default", "ALL", pat))
    ensures IsUriHasRule(pat) && UriPath(pat) == ["user", "/"] && SegmentCount(pat) == 2
  {
    ParsePlainPath(Example, pat);
    assert pat[5] == '/' && pat[6] == ':';
    SplitUserId();
    assert pat[1..] == "user/:id";
    UserIdEdges(["user", ":id"]);
  }

  /** The pieces of "user/:id" lead along `user`, then the shared `/` edge. */
  lemma UserIdEdges(segs: seq<string>)
    requires segs == ["user", ":id"]
    ensures DescentPath(segs) == ["user", "/"]
  {
    DescentOfTwo(segs[0], segs[1]);
    assert segs == [segs[0], segs[1]];
  }

  /** Two non-empty pieces lead along their two edges. */
  lemma DescentOfTwo(x: string, z: string)
    requires |x| > 0 && |z| > 0
    ensures DescentPath([x, z]) == [EdgeOf(x), EdgeOf(z)]
  {
    DescentOfOne(x);
    DescentStep([x, z], [x], z);
  }

  /** One named piece leads along one edge. */
  lemma DescentOfOne(x: string)
    requires |x| > 0
    ensures DescentPath([x]) == [EdgeOf(x)]
  {
    DescentStep([x], [], x);
  }

  /** An empty piece after a named one adds no edge. */
  lemma DescentSkipsEmpty(x: string, y: string)
    requires |x| > 0 && |y| == 0
    ensures DescentPath([x, y]) == [EdgeOf(x)]
  {
    DescentOfOne(x);
    DescentStep([x, y], [x], y);
  }

  /** Inserting the route into an empty tree builds UserTree. */
  lemma UserIdTreeBuilt(h: HandlerId, it: HandlerItem)
    requires it == UserRoute(h)
    ensures PutLeaf(EmptyNode, ["user", "/"], InsertByPriority([], it)) == UserTree(h)
  {
    assert InsertByPriority([], it) == [it];
    assert ["user", "/"][1..] == ["/"] && ["/"][1..] == [];
  }

  /** Registering "/user/:id" into an empty table: one exact key per method, and one leaf in the tree. */
  lemma UserIdRegistered(h: HandlerId, pat: string)
    requires pat == "/user/:id"
    ensures var rt := Register(Example, NoRoutes, pat, HandlerItem("", "", "", 0, h)).value;
      && rt.handlerTree == map["default" := UserTree(h)]
      && rt.handlerMap.Keys == set v | v in Example.methods :: HandlerKey("default", v, pat)
  {
    var item := HandlerItem("", "", "", 0, h);
    UserIdParsed(pat);
    var p := Parsed("default", "ALL", pat);
    RegisterIntoEmpty(Example, pat, item, p);
    var it := Stamp(item, p);
    assert it == UserRoute(h);
    UserIdTreeBuilt(h, it);
  }

  /** The port is dropped from the Host header. */
  lemma ExampleHost(host: string)
    requires host == "example.com:8080"
    ensures HostName(host) == "example.com"
  {
    assert Join(["example.com", "8080"], ':') == "example.com:8080";
    SplitOfJoin(["example.com", "8080"], ':');
  }

  /** No exact key of "/user/:id" equals a key of "/user/42". */
  lemma UserIdKeysMiss(pat: string, path: string, v: string, d: string)
    requires pat == "/user/:id" && path == "/user/42"
    requires ':' !in v && '@' !in d
    ensures HandlerKey("default", v, pat) != HandlerKey(d, "GET", path)
  {
    assert pat[6] != path[6];
    HandlerKeyEqualIff("default", v, pat, d, "GET", path);
  }

  /** The exact keys of "/user/:id" hold the pattern, so the request path "/user/42" misses both domains. */
  lemma UserIdExactMiss(m: map<string, HandlerItem>, host: string, path: string)
    requires host == "example.com:8080" && path == "/user/42"
    requires m.Keys == set v | v in Example.methods :: HandlerKey("default", v, "/user/:id")
    ensures ExactLookup(m, Domains(Example, host), "GET", path) == None
  {
    ExampleHost(host);
    var ds := Domains(Example, host);
    assert ds == ["default", "example.com"];
    forall v | v in Example.methods
      ensures HandlerKey("default", v, "/user/:id") != HandlerKey("default", "GET", path)
      ensures HandlerKey("default", v, "/user/:id") != HandlerKey("example.com", "GET", path)
    {
      UserIdKeysMiss("/user/:id", path, v, "default");
      UserIdKeysMiss("/user/:id", path, v, "example.com");
    }
    assert ds[1..] == ["example.com"] && ["example.com"][1..] == [];
  }

  /** The descent for "/user/42" collects exactly the one leaf list. */
  lemma UserIdCollected(h: HandlerId)
    ensures CollectFrom(UserTree(h), Split("/user/42"[1..], '/')) == [[UserRoute(h)]]
  {
    var rsegs := ["user", "42"];
    assert Split("/user/42"[1..], '/') == rsegs by {
      assert "/user/42"[1..] == "user/42";
      assert Join(rsegs, '/') == "user/42";
      SplitOfJoin(rsegs, '/');
    }
    assert rsegs[1..] == ["42"] && ["42"][1..] == [];
  }

  /** "/user/:id" compiles to `^/user/([\w\.\-]+)$` with the one name "id". */
  lemma UserIdTokens(pat: string)
    requires pat == "/user/:id"
    ensures PatternToRegRule(pat) == RegRule(Anchored([Lit("user"), Param("id")], true), "id")
    ensures RuleNames(pat) == ["id"]
  {
    SplitUserId();
    assert pat[1..] == "user/:id";
    var segs := ["user", ":id"];
    UserIdCompiled(segs);
    var one: seq<string> := [":id"];
    assert segs[1..] == one && one[1..] == [];
    assert SegmentToken(":id") == Param("id");
    assert SegmentTokens(one) == [Param("id")];
    var ts := [Lit("user"), Param("id")];
    assert SegmentTokens(segs) == [Lit("user")] + SegmentTokens(one) == ts;
    UserIdNames(ts);
  }

  /** The tokens of "/user/:id" have no wildcard and the one name "id". */
  lemma UserIdNames(ts: seq<Token>)
    requires ts == [Lit("user"), Param("id")]
    ensures UpToWild(ts) == ts && ParamNames(ts) == ["id"]
  {
    assert ts[1..] == [Param("id")] && [Param("id")][1..] == [];
  }

  /** The source's loop over the pieces of "user/:id", one piece at a time. */
  lemma UserIdCompiled(segs: seq<string>)
    requires segs == ["user", ":id"]
    ensures CompileSegments(segs, [], "") == RegRule(Anchored([Lit("user"), Param("id")], true), "id")
  {
    var one: seq<string> := [":id"];
    assert segs[0] == "user" && segs[1..] == one;
    assert [] + [Lit("user")] == [Lit("user")];
    assert CompileSegments(segs, [], "") == CompileSegments(one, [Lit("user")], "");
    assert one[0][1..] == "id" && one[1..] == [];
    assert AppendName("", "id") == "id";
    assert [Lit("user")] + [Param("id")] == [Lit("user"), Param("id")];
  }

  /** The compiled rule captures "42" from "/user/42". */
  lemma UserIdMatches(rx: Regex, path: string)
    requires rx == Anchored([Lit("user"), Param("id")], true) && path == "/user/42"
    ensures MatchRule(rx, path) == Some(["42"])
  {
    var ts := [Lit("user"), Param("id")];
    assert ts[1..] == [Param("id")] && [Param("id")][1..] == [];
    assert !HasWild(ts);
    assert Fits(ts, ["42"]);
    assert Instantiate(ts, ["42"]) == path;
    MatchInstantiate(ts, true, ["42"]);
  }

  /** The capture is bound to the name. */
  lemma UserIdBinds(names: string, caps: seq<string>)
    requires names == "id" && caps == ["42"]
    ensures BindParams(names, caps) == map["id" := "42"]
  {
    assert Split(names, ',') == ["id"] by {
      assert Join(["id"], ',') == "id";
      SplitOfJoin(["id"], ',');
    }
  }

  /**
   * An unnamed parameter shifts the binding: "/:/:id" compiles to two
   * capture groups but the one name "id", which is bound to the first capture.
   */
  lemma EmptyNameShiftsBinding(pat: string, caps: seq<string>)
    requires pat == "/:/:id" && caps == ["x", "42"]
    ensures PatternToRegRule(pat) == RegRule(Anchored([Param(""), Param("id")], true), "id")
    ensures BindParams(PatternToRegRule(pat).names, caps) == map["id" := "x"]
  {
    var segs := [":", ":id"];
    assert pat[1..] == ":/:id";
    assert Join(segs, '/') == pat[1..];
    SplitOfJoin(segs, '/');
    UnnamedCompiled(segs);
    assert Split("id", ',') == ["id"] by {
      assert Join(["id"], ',') == "id";
      SplitOfJoin(["id"], ',');
    }
    assert ["id"][..0] == [];
  }

  /**
   * A comma inside a parameter name: "/:a,b" has one capture, but its names
   * string "a,b" splits into two names, so the match (whole match plus one
   * group) is not longer than the names and nothing is bound.
   */
  lemma CommaNameBindsNothing(pat: string, caps: seq<string>)
    requires pat == "/:a,b" && |caps| == 1
    ensures PatternToRegRule(pat) == RegRule(Anchored([Param("a,b")], true), "a,b")
    ensures BindParams(PatternToRegRule(pat).names, caps) == map[]
  {
    var segs := [":a,b"];
    assert pat[1..] == ":a,b";
    assert Join(segs, '/') == pat[1..];
    SplitOfJoin(segs, '/');
    CommaCompiled(segs);
    assert Split("a,b", ',') == ["a", "b"] by {
      assert Join(["a", "b"], ',') == "a,b";
      SplitOfJoin(["a", "b"], ',');
    }
  }

  /** The source's loop over the one piece ":a,b": the name keeps its comma. */
  lemma CommaCompiled(segs: seq<string>)
    requires segs == [":a,b"]
    ensures CompileSegments(segs, [], "") == RegRule(Anchored([Param("a,b")], true), "a,b")
  {
    assert segs[0][1..] == "a,b" && segs[1..] == [];
    assert AppendName("", "a,b") == "a,b";
    assert [] + [Param("a,b")] == [Param("a,b")];
  }

  /** The source's loop over the pieces of ":/:id": the empty name leaves the names string empty. */
  lemma UnnamedCompiled(segs: seq<string>)
    requires segs == [":", ":id"]
    ensures CompileSegments(segs, [], "") == RegRule(Anchored([Param(""), Param("id")], true), "id")
  {
    var one: seq<string> := [":id"];
    assert segs[0][1..] == "" && segs[1..] == one;
    assert AppendName("", "") == "";
    assert [] + [Param("")] == [Param("")];
    assert CompileSegments(segs, [], "") == CompileSegments(one, [Param("")], "");
    assert one[0][1..] == "id" && one[1..] == [];
    assert AppendName("", "id") == "id";
    assert [Param("")] + [Param("id")] == [Param(""), Param("id")];
  }

  /** The route accepts a GET of "/user/42" and binds id to "42". */
  lemma UserIdAccepts(it: HandlerItem, path: string)
    requires it.uri == "/user/:id" && it.httpMethod == "ALL" && path == "/user/42"
    ensures Accept(Example, it, "GET", path) == Some(map["id" := "42"])
  {
    UserIdTokens(it.uri);
    var rr := PatternToRegRule(it.uri);
    UserIdMatches(rr.regex, path);
    UserIdBinds(rr.names, ["42"]);
  }
  /** Scanning the collected lists finds the route. */
  lemma UserIdFirstFound(h: HandlerId, lists: seq<seq<HandlerItem>>, path: string)
    requires lists == [[UserRoute(h)]] && path == "/user/42"
    ensures FirstInLists(Example, lists, "GET", path) == Some(Found(UserRoute(h), map["id" := "42"]))
  {
    UserIdAccepts(UserRoute(h), path);
    assert lists[..0] == [];
    assert [UserRoute(h)][1..] == [];
  }

  /**
   * One route "/user/:id" registered for every method; a GET of "/user/42"
   * from host "example.com:8080" misses the exact table (the key holds the
   * pattern, not the path) and is answered by the pattern tree, with id
   * bound to "42".
   */
  lemma UserIdEndToEnd(h: HandlerId, pat: string, host: string, path: string)
    requires pat == "/user/:id" && host == "example.com:8080" && path == "/user/42"
    ensures var rt := Register(Example, NoRoutes, pat, HandlerItem("", "", "", 0, h)).value;
      Resolve(Example, rt, "GET", host, path) == Some(Found(UserRoute(h), map["id" := "42"]))
  {
    UserIdRegistered(h, pat);
    var rt := Register(Example, NoRoutes, pat, HandlerItem("", "", "", 0, h)).value;
    UserIdExactMiss(rt.handlerMap, host, path);
    UserIdCollected(h);
    UserIdFirstFound(h, [[UserRoute(h)]], path);
    var ds := Domains(Example, host);
    assert ds[0] == "default";
  }

  /** "GET:/a" parses to method GET with the whole pattern as its uri, which is not dynamic. */
  lemma GetAParsed(pat: string)
    requires pat == "GET:/a"
    ensures ParsePattern(Example, pat) == Ok(Parsed("default", "GET", pat))
    ensures !IsUriHasRule(pat)
  {
    assert pat == "GET" + ":" + "/a";
    ParseMethodWithoutDomain(Example, "GET", "/a");
    assert !HasPair(pat, '/', ':') && !HasPair(pat, '/', '*') by {
      assert forall k :: 0 <= k < |pat| && pat[k] == '/' ==> k == 4;
    }
  }

  /** The key written for "GET:/a" is not the key looked up for "/a", whatever the domain. */
  lemma GetAKeyMiss(pat: string, path: string, d: string)
    requires pat == "GET:/a" && path == "/a"
    ensures HandlerKey("default", "GET", pat) != HandlerKey(d, "GET", path)
  {
    var stored, looked := HandlerKey("default", "GET", pat), HandlerKey(d, "GET", path);
    assert ToUpper("GET") == "GET";
    assert stored[4] == pat[0] == 'G';
    assert looked[4] == path[0] == '/';
  }

  /**
   * "GET:/a" without a domain keeps the whole pattern as its uri and its
   * key, so a GET of "/a" never finds it, from any host.
   */
  lemma MethodPrefixNeverFound(h: HandlerId, pat: string, host: string, path: string)
    requires pat == "GET:/a" && path == "/a"
    ensures var rt := Register(Example, NoRoutes, pat, HandlerItem("", "", "", 0, h)).value;
      Resolve(Example, rt, "GET", host, path) == None
  {
    GetAParsed(pat);
    var rt := Register(Example, NoRoutes, pat, HandlerItem("", "", "", 0, h)).value;
    assert rt.handlerTree == map[];
    assert rt.handlerMap.Keys == {HandlerKey("default", "GET", pat)};
    var hn := HostName(host);
    GetAKeyMiss(pat, path, "default");
    GetAKeyMiss(pat, path, hn);
    var ds := Domains(Example, host);
    assert ds[1..] == [hn] && [hn][1..] == [];
    assert HandlerKey(ds[0], "GET", path) !in rt.handlerMap;
    assert HandlerKey(hn, "GET", path) !in rt.handlerMap;
    assert ExactLookup(rt.handlerMap, ds[1..], "GET", path) == None;
    assert DynamicLookup(Example, rt.handlerTree, ds[1..], "GET", path) == None;
  }

  /** Keys of different lengths differ. */
  lemma KeysOfOtherLength(d: string, m: string, p: string, d': string, m': string, p': string)
    requires |m| + |p| + |d| != |m'| + |p'| + |d'|
    ensures HandlerKey(d, m, p) != HandlerKey(d', m', p')
  {
    assert |HandlerKey(d, m, p)| == |m| + |p| + |d| + 2;
    assert |HandlerKey(d', m', p')| == |m'| + |p'| + |d'| + 2;
  }

  /** "/fixed@example.com" parses to the domain example.com and the static uri "/fixed". */
  lemma FixedParsed(pat: string)
    requires pat == "/fixed@example.com"
    ensures ParsePattern(Example, pat) == Ok(Parsed("example.com", "ALL", "/fixed"))
    ensures !IsUriHasRule("/fixed")
  {
    var p, d := "/fixed", "example.com";
    assert pat == p + "@" + d;
    FixedPathPlain(p);
    ExampleDomainChars(d);
    ParsePathDomain(Example, p, d);
  }

  /** "/fixed" has no newline, no letter before a `:`, and no rule marker. */
  lemma FixedPathPlain(p: string)
    requires p == "/fixed"
    ensures '\n' !in p && !IsUriHasRule(p)
    ensures forall k :: 0 < k < |p| && p[k] == ':' ==> !IsLetter(p[k - 1])
  {
    assert forall k :: 0 <= k < |p| ==> p[k] != ':' && p[k] != '*' && p[k] != '\n';
  }

  /** "example.com" is a run of domain characters. */
  lemma ExampleDomainChars(d: string)
    requires d == "example.com"
    ensures |d| > 0 && forall k :: 0 <= k < |d| ==> IsRuleChar(d[k])
  {
  }

  /**
   * A static route with an explicit domain is never found at its own path:
   * "/fixed@example.com" is stored under keys that still end in
   * "@example.com@example.com", while a GET of "/fixed" from example.com
   * looks up "GET:/fixed@default" and "GET:/fixed@example.com".
   */
  lemma DomainStaticNeverFound(h: HandlerId, pat: string, host: string, path: string)
    requires pat == "/fixed@example.com" && host == "example.com:8080" && path == "/fixed"
    ensures var rt := Register(Example, NoRoutes, pat, HandlerItem("", "", "", 0, h)).value;
      && HandlerKey("example.com", "GET", path) !in rt.handlerMap
      && Resolve(Example, rt, "GET", host, path) == None
  {
    var item := HandlerItem("", "", "", 0, h);
    var p := Parsed("example.com", "ALL", "/fixed");
    FixedParsed(pat);
    RegisterParsed(Example, NoRoutes, pat, item, p);
    var rt := Register(Example, NoRoutes, pat, item).value;
    forall v | v in Example.methods
      ensures HandlerKey("example.com", v, pat) != HandlerKey("example.com", "GET", path)
      ensures HandlerKey("example.com", v, pat) != HandlerKey("default", "GET", path)
    {
      KeysOfOtherLength("example.com", v, pat, "example.com", "GET", path);
      KeysOfOtherLength("example.com", v, pat, "default", "GET", path);
    }
    ExampleHost(host);
    ResolveNoneIff(Example, rt, "GET", host, path);
  }

  /**
   * The same route is reached by a request whose path is the whole pattern,
   * domain suffix included: from example.com it looks up exactly the stored
   * key "GET:/fixed@example.com@example.com".
   */
  lemma DomainStaticFoundAtRawPath(h: HandlerId, pat: string, host: string, path: string)
    requires pat == "/fixed@example.com" && host == "example.com:8080" && path == pat
    ensures var item := HandlerItem("", "", "", 0, h);
      var rt := Register(Example, NoRoutes, pat, item).value;
      Resolve(Example, rt, "GET", host, path) == Some(Found(Stamp(item, Parsed("example.com", "ALL", "/fixed")), map[]))
  {
    var item := HandlerItem("", "", "", 0, h);
    var p := Parsed("example.com", "ALL", "/fixed");
    FixedParsed(pat);
    RegisterParsed(Example, NoRoutes, pat, item, p);
    var rt := Register(Example, NoRoutes, pat, item).value;
    var kh := HandlerKey("example.com", "GET", path);
    assert "GET" in Example.methods;
    assert kh in ExactKeys(Example, p.domain, p.httpMethod, pat);
    assert rt.handlerMap[kh] == Stamp(item, p);
    forall v | v in Example.methods
      ensures HandlerKey("example.com", v, pat) != HandlerKey("default", "GET", path)
    {
      KeysOfOtherLength("example.com", v, pat, "default", "GET", path);
    }
    ExampleHost(host);
    ResolveExactFirst(Example, rt, "GET", host, path);
  }

  /**
   * One domain's tree after storing the list `l1` of "/a/b/:x/y" (path
   * a, b, /, y) and the list `l2` of "/a/:id/edit" (path a, /, edit).
   */
  function BranchTree(l1: seq<HandlerItem>, l2: seq<HandlerItem>): Node {
    var b := Node(map["/" := Node(map["y" := Node(map[], Some(l1))], None)], None);
    var id := Node(map["edit" := Node(map[], Some(l2))], None);
    Node(map["a" := Node(map["b" := b, "/" := id], None)], None)
  }

  /** Putting the two lists into an empty tree at their paths builds BranchTree. */
  lemma BranchTreeBuilt(l1: seq<HandlerItem>, l2: seq<HandlerItem>, p1: seq<string>, p2: seq<string>)
    requires p1 == ["a", "b", "/", "y"] && p2 == ["a", "/", "edit"]
    ensures PutLeaf(PutLeaf(EmptyNode, p1, l1), p2, l2) == BranchTree(l1, l2)
  {
    var leaf1 := Node(map[], Some(l1));
    var y := Node(map["y" := leaf1], None);
    var b := Node(map["/" := y], None);
    var a1 := Node(map["b" := b], None);
    assert p1[1..] == ["b", "/", "y"] && p1[2..] == ["/", "y"] && p1[3..] == ["y"] && p1[4..] == [];
    assert PutLeaf(EmptyNode, ["y"], l1) == y;
    assert PutLeaf(EmptyNode, ["/", "y"], l1) == b;
    assert PutLeaf(EmptyNode, ["b", "/", "y"], l1) == a1;
    var t1 := Node(map["a" := a1], None);
    assert PutLeaf(EmptyNode, p1, l1) == t1;
    var id := Node(map["edit" := Node(map[], Some(l2))], None);
    assert p2[1..] == ["/", "edit"] && p2[2..] == ["edit"] && p2[3..] == [];
    assert PutLeaf(EmptyNode, ["edit"], l2) == id;
    assert PutLeaf(a1, ["/", "edit"], l2) == Node(map["b" := b, "/" := id], None);
  }

  /**
   * The descent never backtracks: for the request pieces a, b, edit it
   * follows the exact edge b, finds no edge edit there, moves on along `/`
   * and collects nothing, although the list of "/a/:id/edit" sits at a, /,
   * edit.
   */
  lemma DescentDoesNotBacktrack(l1: seq<HandlerItem>, l2: seq<HandlerItem>, segs: seq<string>)
    requires segs == ["a", "b", "edit"]
    ensures CollectFrom(BranchTree(l1, l2), segs) == []
    ensures LeafAt(BranchTree(l1, l2), ["a", "/", "edit"]) == Some(l2)
  {
    var t := BranchTree(l1, l2);
    var na := t.children["a"];
    var nb := na.children["b"];
    var ns := nb.children["/"];
    assert "edit" !in nb.children && ns.leaf == None;
    assert CollectFrom(ns, []) == [];
    assert CollectFrom(nb, ["edit"]) == [];
    assert CollectFrom(na, ["b", "edit"]) == [];
    assert segs[1..] == ["b", "edit"];
    var p: seq<string> := ["a", "/", "edit"];
    assert p[1..] == ["/", "edit"] && p[2..] == ["edit"] && p[3..] == [];
  }

  /** A string without "/:" has no markers. */
  lemma {:induction false} NoPairNoMarker(s: string)
    requires !HasPair(s, '/', ':')
    ensures MarkerCount(s) == 0
    decreases |s|
  {
    if |s| >= 2 {
      assert !HasPair(s[1..], '/', ':') by {
        forall k | 0 <= k < |s[1..]| - 1 ensures !(s[1..][k] == '/' && s[1..][k + 1] == ':') {
          assert s[1..][k] == s[k + 1] && s[1..][k + 1] == s[k + 2];
        }
      }
      NoPairNoMarker(s[1..]);
    }
  }

  /** Equal priority: the route with a `/:` marker goes in front of the wildcard route. */
  lemma ParamBeforeWildcard(a: HandlerItem, b: HandlerItem)
    requires a.uri == "/a/*rest" && b.uri == "/a/:id" && a.priority == 2 && b.priority == 2
    ensures InsertByPriority([a], b) == [b, a]
  {
    WildcardHasNoMarker(a.uri);
    ParamHasOneMarker(b.uri);
    assert Outranks(b, a);
  }

  lemma WildcardHasNoMarker(u: string)
    requires u == "/a/*rest"
    ensures MarkerCount(u) == 0
  {
    assert !HasPair(u, '/', ':');
    NoPairNoMarker(u);
  }

  lemma ParamHasOneMarker(v: string)
    requires v == "/a/:id"
    ensures MarkerCount(v) == 1
  {
    assert MarkerCount(v[4..]) == 0 by {
      assert v[4..] == "id";
      assert MarkerCount("d") == 0;
    }
    assert MarkerCount(v[3..]) == 0 by { assert v[3..][1..] == v[4..]; }
    assert MarkerCount(v[2..]) == 1 by { assert v[2..][1..] == v[3..]; }
    assert MarkerCount(v[1..]) == 1 by { assert v[1..][1..] == v[2..]; }
  }

  /**
   * An empty piece counts towards the priority but adds no edge: "/a//:id"
   * is stored at the same node as "/a/:id", with priority 3 instead of 2.
   */
  lemma EmptyPieceCounts(u: string, v: string)
    requires u == "/a//:id" && v == "/a/:id"
    ensures UriPath(u) == UriPath(v) == ["a", "/"]
    ensures SegmentCount(u) == 3 && SegmentCount(v) == 2
  {
    DoubleSlashPieces(u);
    SingleSlashPieces(v);
  }

  /** "/a//:id": three pieces, one of them empty, and two edges. */
  lemma DoubleSlashPieces(u: string)
    requires u == "/a//:id"
    ensures Split(u[1..], '/') == ["a", "", ":id"]
    ensures UriPath(u) == ["a", "/"]
  {
    var su := ["a", "", ":id"];
    assert u[1..] == "a//:id";
    assert Join(su, '/') == u[1..];
    SplitOfJoin(su, '/');
    EmptyPieceSkipped(su);
  }

  /** The empty piece adds no edge. */
  lemma EmptyPieceSkipped(su: seq<string>)
    requires su == ["a", "", ":id"]
    ensures DescentPath(su) == ["a", "/"]
  {
    DescentOfThree(su[0], su[1], su[2]);
    assert su == [su[0], su[1], su[2]];
  }

  /** A named piece, an empty piece and a second piece lead along two edges. */
  lemma DescentOfThree(x: string, y: string, z: string)
    requires |x| > 0 && |y| == 0 && |z| > 0
    ensures DescentPath([x, y, z]) == [EdgeOf(x), EdgeOf(z)]
  {
    DescentSkipsEmpty(x, y);
    DescentStep([x, y, z], [x, y], z);
  }

  /** "/a/:id": two pieces and two edges. */
  lemma SingleSlashPieces(v: string)
    requires v == "/a/:id"
    ensures Split(v[1..], '/') == ["a", ":id"]
    ensures UriPath(v) == ["a", "/"]
  {
    var sv := ["a", ":id"];
    assert v[1..] == "a/:id";
    assert Join(sv, '/') == v[1..];
    SplitOfJoin(sv, '/');
    assert sv[..1] == ["a"] && sv[..1][..0] == [];
  }
}
