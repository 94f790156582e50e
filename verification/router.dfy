/**
 * The route table of the server: registration (setHandler) into the exact
 * table and the per-domain pattern trees, and resolution (searchHandler),
 * first by exact key for the default domain and then for the request host,
 * then through the pattern trees.
 */
module Router {
  import opened Options
  import opened Strings
  import opened Entities
  import opened Priority
  import opened Pattern
  import opened RegRule
  import opened Tree

  /** handlerMap (exact key to route) and handlerTree (domain to the root of its pattern tree). */
  datatype Routes = Routes(handlerMap: map<string, HandlerItem>, handlerTree: map<string, Node>)

  const NoRoutes := Routes(map[], map[])

  /** The route searchHandler returns, with the parameters it bound into the request. */
  datatype Found = Found(item: HandlerItem, params: map<string, string>)

  /** The root of a domain's tree; a domain without a tree behaves as an empty one. */
  function RootOf(tree: map<string, Node>, d: string): Node {
    if d in tree then tree[d] else EmptyNode
  }

  // ---------------------------------------------------------------------
  // Registration

  /** The exact keys setHandler writes: one per configured method for the "every method" sentinel, one otherwise. */
  function ExactKeys(cfg: Config, domain: string, httpMethod: string, pattern: string): set<string> {
    if httpMethod == cfg.defaultMethod then (set v | v in cfg.methods :: HandlerKey(domain, v, pattern))
    else {HandlerKey(domain, httpMethod, pattern)}
  }

  /** The exact table after writing `item` under every key of `keys`. */
  function StoreExact(m: map<string, HandlerItem>, keys: set<string>, item: HandlerItem): map<string, HandlerItem> {
    map k | k in m.Keys + keys :: if k in keys then item else m[k]
  }

  /**
   * The route as setHandler fills it in: uri, domain and method from the
   * parsed pattern, and for a dynamic uri the priority. The exact table and
   * the tree hold the same HandlerItem, so the priority set after the exact
   * write is seen through both.
   */
  function Stamp(item: HandlerItem, p: Parsed): HandlerItem {
    item.(uri := p.uri, domain := p.domain, httpMethod := p.httpMethod,
          priority := if IsUriHasRule(p.uri) then SegmentCount(p.uri) else item.priority)
  }

  /** The trees with `item` spliced into the leaf list of its uri's node in its domain's tree. */
  function InsertDynamic(tree: map<string, Node>, item: HandlerItem): map<string, Node>
    requires |item.uri| > 0
  {
    var root := RootOf(tree, item.domain);
    var path := UriPath(item.uri);
    tree[item.domain := PutLeaf(root, path, InsertByPriority(LeafAt(root, path).GetOr([]), item))]
  }

  /** setHandler(pattern, item): the new table, or the error for an empty pattern. */
  function Register(cfg: Config, rt: Routes, pattern: string, item: HandlerItem): (r: Result<Routes, RouteError>)
    ensures r.Err? <==> pattern == ""
  {
    match ParsePattern(cfg, pattern)
    case Err(e) => Err(e)
    case Ok(p) =>
      var it := Stamp(item, p);
      var m := StoreExact(rt.handlerMap, ExactKeys(cfg, p.domain, p.httpMethod, pattern), it);
      Ok(Routes(m, if IsUriHasRule(p.uri) then InsertDynamic(rt.handlerTree, it) else rt.handlerTree))
  }

  /**
   * The exact table after a registration: the keys written are one per
   * configured method (for the sentinel method) or the one key of the given
   * method, all built from the raw pattern; each holds the new route (last
   * write wins) and every other key is untouched.
   */
  lemma RegisterExact(cfg: Config, rt: Routes, pattern: string, item: HandlerItem)
    requires pattern != ""
    ensures var p := ParsePattern(cfg, pattern).value;
      var keys := ExactKeys(cfg, p.domain, p.httpMethod, pattern);
      var m := Register(cfg, rt, pattern, item).value.handlerMap;
      && (p.httpMethod == cfg.defaultMethod ==> keys == set v | v in cfg.methods :: HandlerKey(p.domain, v, pattern))
      && (p.httpMethod != cfg.defaultMethod ==> keys == {HandlerKey(p.domain, p.httpMethod, pattern)})
      && m.Keys == rt.handlerMap.Keys + keys
      && (forall k :: k in keys ==> m[k] == Stamp(item, p))
      && (forall k :: k in rt.handlerMap && k !in keys ==> m[k] == rt.handlerMap[k])
  {
  }

  /** A registration whose uri is not dynamic (see IsUriHasRule) leaves every pattern tree as it was. */
  lemma RegisterStatic(cfg: Config, rt: Routes, pattern: string, item: HandlerItem)
    requires pattern != "" && !IsUriHasRule(ParsePattern(cfg, pattern).value.uri)
    ensures Register(cfg, rt, pattern, item).value.handlerTree == rt.handlerTree
  {
  }

  /**
   * A registration whose uri is dynamic: the route's priority is the number
   * of pieces of its path, the leaf list at the uri's node of its domain's
   * tree becomes the old list (or an empty one) with the route inserted by
   * priority, and every other leaf of every tree is unchanged.
   */
  lemma RegisterDynamic(cfg: Config, rt: Routes, pattern: string, item: HandlerItem)
    requires pattern != "" && IsUriHasRule(ParsePattern(cfg, pattern).value.uri)
    ensures var p := ParsePattern(cfg, pattern).value;
      var it := Stamp(item, p);
      var t, t' := rt.handlerTree, Register(cfg, rt, pattern, item).value.handlerTree;
      && it.priority == SegmentCount(p.uri)
      && (forall d :: d in t' <==> d in t || d == p.domain)
      && forall d, q :: LeafAt(RootOf(t', d), q) ==
           if d == p.domain && q == UriPath(p.uri)
           then Some(InsertByPriority(LeafAt(RootOf(t, d), q).GetOr([]), it))
           else LeafAt(RootOf(t, d), q)
  {
    var p := ParsePattern(cfg, pattern).value;
    var it := Stamp(item, p);
    var t := rt.handlerTree;
    RegisterParsed(cfg, rt, pattern, item, p);
    assert Register(cfg, rt, pattern, item).value.handlerTree == InsertDynamic(t, it);
    var root := RootOf(t, p.domain);
    var path := UriPath(p.uri);
    var l := InsertByPriority(LeafAt(root, path).GetOr([]), it);
    forall d, q
      ensures LeafAt(RootOf(InsertDynamic(t, it), d), q) ==
        if d == p.domain && q == path then Some(l) else LeafAt(RootOf(t, d), q)
    {
      if d == p.domain {
        LeafAtPut(root, path, l, q);
      }
    }
  }

  // ---------------------------------------------------------------------
  // The invariant of the pattern trees

  /** A route stored in domain `d`'s tree at node `path`. */
  predicate ItemAt(d: string, path: seq<string>, it: HandlerItem) {
    && it.domain == d
    && IsUriHasRule(it.uri)
    && UriPath(it.uri) == path
    && it.priority == SegmentCount(it.uri)
  }

  ghost predicate LeafValid(d: string, path: seq<string>, l: seq<HandlerItem>) {
    |l| > 0 && Sorted(l) && forall i :: 0 <= i < |l| ==> ItemAt(d, path, l[i])
  }

  /**
   * What registration keeps true of the trees: every leaf list is non-empty
   * and ordered by rank, and holds dynamic routes of its own domain whose
   * uri leads to that very node.
   */
  ghost predicate RoutesValid(rt: Routes) {
    forall d, path :: d in rt.handlerTree && LeafAt(rt.handlerTree[d], path).Some? ==>
      LeafValid(d, path, LeafAt(rt.handlerTree[d], path).value)
  }

  /** Register once the pattern's parse is known. */
  lemma RegisterParsed(cfg: Config, rt: Routes, pattern: string, item: HandlerItem, p: Parsed)
    requires ParsePattern(cfg, pattern) == Ok(p)
    ensures var it := Stamp(item, p);
      Register(cfg, rt, pattern, item) == Ok(Routes(StoreExact(rt.handlerMap, ExactKeys(cfg, p.domain, p.httpMethod, pattern), it),
        if IsUriHasRule(p.uri) then InsertDynamic(rt.handlerTree, it) else rt.handlerTree))
  {
  }

  /** A dynamic pattern registered into an empty table: one leaf holding the stamped route, and its exact keys. */
  lemma RegisterIntoEmpty(cfg: Config, pattern: string, item: HandlerItem, p: Parsed)
    requires ParsePattern(cfg, pattern) == Ok(p) && IsUriHasRule(p.uri)
    ensures var rt := Register(cfg, NoRoutes, pattern, item).value;
      && rt.handlerTree == map[p.domain := PutLeaf(EmptyNode, UriPath(p.uri), [Stamp(item, p)])]
      && rt.handlerMap.Keys == ExactKeys(cfg, p.domain, p.httpMethod, pattern)
  {
    RegisterParsed(cfg, NoRoutes, pattern, item, p);
    var it := Stamp(item, p);
    assert LeafAt(EmptyNode, UriPath(p.uri)).GetOr([]) == [] by { EmptyHasNoLeaf(UriPath(p.uri)); }
    assert InsertByPriority([], it) == [it];
  }

  lemma NoRoutesValid()
    ensures RoutesValid(NoRoutes)
  {
  }

  /** Registration keeps the trees' invariant. */
  lemma RegisterKeepsValid(cfg: Config, rt: Routes, pattern: string, item: HandlerItem)
    requires RoutesValid(rt) && Register(cfg, rt, pattern, item).Ok?
    ensures RoutesValid(Register(cfg, rt, pattern, item).value)
  {
    var p := ParsePattern(cfg, pattern).value;
    if IsUriHasRule(p.uri) {
      RegisterDynamic(cfg, rt, pattern, item);
      var it := Stamp(item, p);
      var t, t' := rt.handlerTree, Register(cfg, rt, pattern, item).value.handlerTree;
      forall d, q | d in t' && LeafAt(t'[d], q).Some?
        ensures LeafValid(d, q, LeafAt(t'[d], q).value)
      {
        assert t'[d] == RootOf(t', d);
        var before := LeafAt(RootOf(t, d), q);
        assert before.Some? ==> LeafValid(d, q, before.value) by {
          if before.Some? {
            if d !in t {
              EmptyHasNoLeaf(q);
            }
          }
        }
        if d == p.domain && q == UriPath(p.uri) {
          InsertedLeafValid(d, q, before.GetOr([]), it);
        }
      }
    }
  }

  /** Inserting a route that belongs at a node into that node's (valid or empty) list gives a valid list. */
  lemma InsertedLeafValid(d: string, q: seq<string>, l: seq<HandlerItem>, it: HandlerItem)
    requires l == [] || LeafValid(d, q, l)
    requires ItemAt(d, q, it)
    ensures LeafValid(d, q, InsertByPriority(l, it))
  {
    InsertKeepsSorted(l, it);
    var r := InsertByPriority(l, it);
    forall i | 0 <= i < |r|
      ensures ItemAt(d, q, r[i])
    {
      assert r[i] in multiset(r);
      if r[i] != it {
        assert r[i] in multiset(l);
        var j :| 0 <= j < |l| && l[j] == r[i];
      }
    }
  }

  /**
   * Registering the same dynamic pattern twice reaches the same node, and
   * both routes end up in its leaf list, the second after the first (routes
   * of equal rank keep their registration order); the exact table keeps only
   * the second.
   */
  lemma RegisterTwice(cfg: Config, rt: Routes, pattern: string, a: HandlerItem, b: HandlerItem)
    requires RoutesValid(rt) && pattern != "" && IsUriHasRule(ParsePattern(cfg, pattern).value.uri)
    ensures var p := ParsePattern(cfg, pattern).value;
      var rt1 := Register(cfg, rt, pattern, a).value;
      var rt2 := Register(cfg, rt1, pattern, b).value;
      var l := LeafAt(rt2.handlerTree[p.domain], UriPath(p.uri));
      && l.Some?
      && (exists i, j :: 0 <= i < j < |l.value| && l.value[i] == Stamp(a, p) && l.value[j] == Stamp(b, p))
      && forall k :: k in ExactKeys(cfg, p.domain, p.httpMethod, pattern) ==> rt2.handlerMap[k] == Stamp(b, p)
  {
    var p := ParsePattern(cfg, pattern).value;
    var path := UriPath(p.uri);
    var A, B := Stamp(a, p), Stamp(b, p);
    var rt1 := Register(cfg, rt, pattern, a).value;
    var rt2 := Register(cfg, rt1, pattern, b).value;
    RegisterDynamic(cfg, rt, pattern, a);
    RegisterDynamic(cfg, rt1, pattern, b);
    RegisterKeepsValid(cfg, rt, pattern, a);
    RegisterExact(cfg, rt1, pattern, b);
    var l0 := LeafAt(RootOf(rt.handlerTree, p.domain), path).GetOr([]);
    assert Sorted(l0) by {
      if p.domain in rt.handlerTree && LeafAt(rt.handlerTree[p.domain], path).Some? {
        assert LeafValid(p.domain, path, LeafAt(rt.handlerTree[p.domain], path).value);
      }
    }
    var l1 := InsertByPriority(l0, A);
    assert LeafAt(RootOf(rt1.handlerTree, p.domain), path) == Some(l1);
    var l2 := InsertByPriority(l1, B);
    assert LeafAt(rt2.handlerTree[p.domain], path) == Some(l2) by {
      assert rt2.handlerTree[p.domain] == RootOf(rt2.handlerTree, p.domain);
    }
    assert !Outranks(A, B) && !Outranks(B, A);
    InsertKeepsArrivalOrder(l0, A, B);
  }

  // ---------------------------------------------------------------------
  // Resolution

  /** The request host without its port: `strings.Split(host, ":")[0]`. */
  function HostName(host: string): (h: string)
    ensures h <= host && ':' !in h
    ensures |h| < |host| ==> host[|h|] == ':'
  {
    Split(host, ':')[0]
  }

  /** The domains searchHandler tries, in this order, in both phases. */
  function Domains(cfg: Config, host: string): seq<string> {
    [cfg.defaultDomain, HostName(host)]
  }

  /** The exact phase: the route under the first domain whose key is in the table. */
  function ExactLookup(m: map<string, HandlerItem>, domains: seq<string>, httpMethod: string, path: string): Option<HandlerItem>
    decreases |domains|
  {
    if domains == [] then None
    else
      var k := HandlerKey(domains[0], httpMethod, path);
      if k in m then Some(m[k]) else ExactLookup(m, domains[1..], httpMethod, path)
  }

  /** The exact phase returns the entry of the first domain that has one, and nothing when none has. */
  lemma {:induction false} ExactLookupIsFirst(m: map<string, HandlerItem>, domains: seq<string>, httpMethod: string, path: string)
    ensures var r := ExactLookup(m, domains, httpMethod, path);
      && (r.None? <==> forall i :: 0 <= i < |domains| ==> HandlerKey(domains[i], httpMethod, path) !in m)
      && (r.Some? ==> exists i :: (0 <= i < |domains| && HandlerKey(domains[i], httpMethod, path) in m
            && r.value == m[HandlerKey(domains[i], httpMethod, path)]
            && forall j :: 0 <= j < i ==> HandlerKey(domains[j], httpMethod, path) !in m))
    decreases |domains|
  {
    if domains != [] {
      var rest := domains[1..];
      ExactLookupIsFirst(m, rest, httpMethod, path);
      assert forall i :: 0 <= i < |rest| ==> rest[i] == domains[i + 1];
      var r := ExactLookup(m, domains, httpMethod, path);
      if HandlerKey(domains[0], httpMethod, path) !in m && r.Some? {
        var i :| 0 <= i < |rest| && HandlerKey(rest[i], httpMethod, path) in m
            && r.value == m[HandlerKey(rest[i], httpMethod, path)]
            && forall j :: 0 <= j < i ==> HandlerKey(rest[j], httpMethod, path) !in m;
        assert HandlerKey(domains[i + 1], httpMethod, path) in m;
      }
    }
  }

  /**
   * Whether a route of a leaf list accepts the request, with the parameters
   * bound when it does: its method is the sentinel or the request's, both
   * ignoring case, and the path matches its compiled rule. A uri too short to
   * compile into an anchored rule is never stored in a tree and is treated
   * as not matching.
   */
  function Accept(cfg: Config, item: HandlerItem, httpMethod: string, path: string): Option<map<string, string>> {
    if !(EqualFold(item.httpMethod, cfg.defaultMethod) || EqualFold(item.httpMethod, httpMethod)) then None
    else
      var rr := PatternToRegRule(item.uri);
      if !rr.regex.Anchored? then None
      else
        var caps := MatchRule(rr.regex, path);
        if caps.Some? then Some(BindParams(rr.names, caps.value)) else None
  }

  /** One leaf list, front to back: the first route that accepts. */
  function FirstInList(cfg: Config, l: seq<HandlerItem>, httpMethod: string, path: string): Option<Found>
    decreases |l|
  {
    if l == [] then None
    else
      var a := Accept(cfg, l[0], httpMethod, path);
      if a.Some? then Some(Found(l[0], a.value)) else FirstInList(cfg, l[1..], httpMethod, path)
  }

  /** The collected lists, from the last (deepest) to the first. */
  function FirstInLists(cfg: Config, lists: seq<seq<HandlerItem>>, httpMethod: string, path: string): Option<Found>
    decreases |lists|
  {
    if lists == [] then None
    else
      var r := FirstInList(cfg, lists[|lists| - 1], httpMethod, path);
      if r.Some? then r else FirstInLists(cfg, lists[..|lists| - 1], httpMethod, path)
  }

  /** The dynamic phase, domain by domain. */
  function DynamicLookup(cfg: Config, tree: map<string, Node>, domains: seq<string>, httpMethod: string, path: string): Option<Found>
    requires |path| > 0
    decreases |domains|
  {
    if domains == [] then None
    else
      var r := if domains[0] in tree
        then FirstInLists(cfg, CollectFrom(tree[domains[0]], Split(path[1..], '/')), httpMethod, path)
        else None;
      if r.Some? then r else DynamicLookup(cfg, tree, domains[1..], httpMethod, path)
  }

  /** searchHandler: the exact phase over both domains, then the dynamic phase over both domains. */
  function Resolve(cfg: Config, rt: Routes, httpMethod: string, host: string, path: string): Option<Found>
    requires |path| > 0
  {
    var ds := Domains(cfg, host);
    var e := ExactLookup(rt.handlerMap, ds, httpMethod, path);
    if e.Some? then Some(Found(e.value, map[])) else DynamicLookup(cfg, rt.handlerTree, ds, httpMethod, path)
  }

  /**
   * The exact phase comes first and the default domain before the host: an
   * exact entry for the default domain shadows one for the host, which in
   * turn shadows every dynamic route; only when neither key is present does
   * the dynamic phase run.
   */
  lemma ResolveExactFirst(cfg: Config, rt: Routes, httpMethod: string, host: string, path: string)
    requires |path| > 0
    ensures var m := rt.handlerMap;
      var kd := HandlerKey(cfg.defaultDomain, httpMethod, path);
      var kh := HandlerKey(HostName(host), httpMethod, path);
      var r := Resolve(cfg, rt, httpMethod, host, path);
      && (kd in m ==> r == Some(Found(m[kd], map[])))
      && (kd !in m && kh in m ==> r == Some(Found(m[kh], map[])))
      && (kd !in m && kh !in m ==> r == DynamicLookup(cfg, rt.handlerTree, Domains(cfg, host), httpMethod, path))
  {
    var ds := Domains(cfg, host);
    var m := rt.handlerMap;
    var kh := HandlerKey(HostName(host), httpMethod, path);
    assert ds[1..] == [HostName(host)];
    assert [HostName(host)][1..] == [];
    assert ExactLookup(m, [HostName(host)], httpMethod, path) == if kh in m then Some(m[kh]) else None;
  }

  /** Entry (i, j) of the collected lists is tried before entry (i2, j2): deeper list first, each front to back. */
  predicate TriedBefore(i2: int, j2: int, i: int, j: int) {
    i2 > i || (i2 == i && j2 < j)
  }

  /** Within one list: the first route that accepts, or none when no route does. */
  lemma {:induction false} FirstInListIsFirst(cfg: Config, l: seq<HandlerItem>, httpMethod: string, path: string)
    ensures var r := FirstInList(cfg, l, httpMethod, path);
      && (r.None? <==> forall j :: 0 <= j < |l| ==> Accept(cfg, l[j], httpMethod, path).None?)
      && (r.Some? ==> exists j :: (0 <= j < |l| && l[j] == r.value.item
            && Accept(cfg, l[j], httpMethod, path) == Some(r.value.params)
            && forall j2 :: 0 <= j2 < j ==> Accept(cfg, l[j2], httpMethod, path).None?))
    decreases |l|
  {
    if l != [] {
      var rest := l[1..];
      FirstInListIsFirst(cfg, rest, httpMethod, path);
      assert forall j :: 0 <= j < |rest| ==> rest[j] == l[j + 1];
      var r := FirstInList(cfg, l, httpMethod, path);
      if Accept(cfg, l[0], httpMethod, path).None? && r.Some? {
        var j :| 0 <= j < |rest| && rest[j] == r.value.item
          && Accept(cfg, rest[j], httpMethod, path) == Some(r.value.params)
          && forall j2 :: 0 <= j2 < j ==> Accept(cfg, rest[j2], httpMethod, path).None?;
        assert l[j + 1] == r.value.item;
      }
    }
  }

  /** No route of any collected list accepts the request. */
  predicate NoneAccepts(cfg: Config, lists: seq<seq<HandlerItem>>, httpMethod: string, path: string) {
    forall i, j :: 0 <= i < |lists| && 0 <= j < |lists[i]| ==> Accept(cfg, lists[i][j], httpMethod, path).None?
  }

  /** Entry (i, j) accepts with `f`, and every entry tried before it does not accept. */
  predicate FirstAt(cfg: Config, lists: seq<seq<HandlerItem>>, httpMethod: string, path: string, i: int, j: int, f: Found) {
    && 0 <= i < |lists| && 0 <= j < |lists[i]| && lists[i][j] == f.item
    && Accept(cfg, lists[i][j], httpMethod, path) == Some(f.params)
    && forall i2, j2 :: 0 <= i2 < |lists| && 0 <= j2 < |lists[i2]| && TriedBefore(i2, j2, i, j) ==>
         Accept(cfg, lists[i2][j2], httpMethod, path).None?
  }

  /**
   * Over the collected lists: the result is the first route that accepts in
   * the order deepest list first, each list front to back, and there is none
   * exactly when no route of any list accepts.
   */
  lemma {:induction false} FirstInListsIsFirst(cfg: Config, lists: seq<seq<HandlerItem>>, httpMethod: string, path: string)
    ensures var r := FirstInLists(cfg, lists, httpMethod, path);
      && (r.None? <==> NoneAccepts(cfg, lists, httpMethod, path))
      && (r.Some? ==> exists i, j :: FirstAt(cfg, lists, httpMethod, path, i, j, r.value))
    decreases |lists|
  {
    if lists != [] {
      var n := |lists| - 1;
      var init, last := lists[..n], lists[n];
      assert lists == init + [last];
      FirstInListsIsFirst(cfg, init, httpMethod, path);
      FirstInListIsFirst(cfg, last, httpMethod, path);
      NoneAcceptsSplit(cfg, lists, httpMethod, path);
      var r := FirstInLists(cfg, lists, httpMethod, path);
      var rl := FirstInList(cfg, last, httpMethod, path);
      if rl.Some? {
        var j :| 0 <= j < |last| && last[j] == rl.value.item
          && Accept(cfg, last[j], httpMethod, path) == Some(rl.value.params)
          && forall j2 :: 0 <= j2 < j ==> Accept(cfg, last[j2], httpMethod, path).None?;
        FirstAtLast(cfg, init, last, httpMethod, path, j, rl.value);
      } else if r.Some? {
        var i, j :| FirstAt(cfg, init, httpMethod, path, i, j, r.value);
        FirstAtInit(cfg, init, last, httpMethod, path, i, j, r.value);
      }
    }
  }

  lemma FirstAtLast(cfg: Config, init: seq<seq<HandlerItem>>, last: seq<HandlerItem>, httpMethod: string, path: string, j: int, f: Found)
    requires 0 <= j < |last| && last[j] == f.item
    requires Accept(cfg, last[j], httpMethod, path) == Some(f.params)
    requires forall j2 :: 0 <= j2 < j ==> Accept(cfg, last[j2], httpMethod, path).None?
    ensures FirstAt(cfg, init + [last], httpMethod, path, |init|, j, f)
  {
    var lists := init + [last];
    assert lists[|init|] == last;
  }

  lemma NoneAcceptsSplit(cfg: Config, lists: seq<seq<HandlerItem>>, httpMethod: string, path: string)
    requires lists != []
    ensures var n := |lists| - 1;
      NoneAccepts(cfg, lists, httpMethod, path) <==>
        NoneAccepts(cfg, lists[..n], httpMethod, path)
        && forall j :: 0 <= j < |lists[n]| ==> Accept(cfg, lists[n][j], httpMethod, path).None?
  {
    var n := |lists| - 1;
    assert forall i :: 0 <= i < n ==> lists[..n][i] == lists[i];
  }

  lemma FirstAtInit(cfg: Config, init: seq<seq<HandlerItem>>, last: seq<HandlerItem>, httpMethod: string, path: string, i: int, j: int, f: Found)
    requires FirstAt(cfg, init, httpMethod, path, i, j, f)
    requires forall j2 :: 0 <= j2 < |last| ==> Accept(cfg, last[j2], httpMethod, path).None?
    ensures FirstAt(cfg, init + [last], httpMethod, path, i, j, f)
  {
    var lists := init + [last];
    forall i2, j2 | 0 <= i2 < |lists| && 0 <= j2 < |lists[i2]| && TriedBefore(i2, j2, i, j)
      ensures Accept(cfg, lists[i2][j2], httpMethod, path).None?
    {
      if i2 < |init| {
        assert lists[i2][j2] == init[i2][j2];
      } else {
        assert lists[i2] == last;
      }
    }
  }

  /** No route stored along the descent of `path` in the tree of domain `d` accepts (or there is no such tree). */
  predicate Misses(cfg: Config, tree: map<string, Node>, d: string, httpMethod: string, path: string)
    requires |path| > 0
  {
    d !in tree || NoneAccepts(cfg, CollectFrom(tree[d], Split(path[1..], '/')), httpMethod, path)
  }

  /** Domain `domains[k]` is the first that does not miss, and its first accepting route is `r`. */
  predicate HitAt(cfg: Config, tree: map<string, Node>, domains: seq<string>, k: int, httpMethod: string, path: string, r: Option<Found>)
    requires |path| > 0
  {
    && 0 <= k < |domains| && domains[k] in tree
    && r == FirstInLists(cfg, CollectFrom(tree[domains[k]], Split(path[1..], '/')), httpMethod, path)
    && forall i :: 0 <= i < k ==> Misses(cfg, tree, domains[i], httpMethod, path)
  }

  /** A first hit in the tail of the domain list, behind a domain that misses, is a first hit at the next index. */
  lemma HitBehindMiss(cfg: Config, tree: map<string, Node>, domains: seq<string>, k: int, httpMethod: string, path: string, r: Option<Found>)
    requires |path| > 0 && |domains| > 0
    requires Misses(cfg, tree, domains[0], httpMethod, path)
    requires HitAt(cfg, tree, domains[1..], k, httpMethod, path, r)
    ensures HitAt(cfg, tree, domains, k + 1, httpMethod, path, r)
  {
    var rest := domains[1..];
    assert domains[k + 1] == rest[k];
    forall i | 0 <= i < k + 1
      ensures Misses(cfg, tree, domains[i], httpMethod, path)
    {
      if i > 0 {
        assert domains[i] == rest[i - 1];
      }
    }
  }

  /**
   * The dynamic phase tries the domains in order: it finds nothing exactly
   * when every domain misses, and otherwise returns the first match of the
   * first domain that does not miss.
   */
  lemma {:induction false} DynamicLookupIsFirst(cfg: Config, tree: map<string, Node>, domains: seq<string>, httpMethod: string, path: string)
    requires |path| > 0
    ensures var r := DynamicLookup(cfg, tree, domains, httpMethod, path);
      && (r.None? <==> forall i :: 0 <= i < |domains| ==> Misses(cfg, tree, domains[i], httpMethod, path))
      && (r.Some? ==> exists k :: HitAt(cfg, tree, domains, k, httpMethod, path, r))
    decreases |domains|
  {
    if domains != [] {
      var rest := domains[1..];
      var segs := Split(path[1..], '/');
      DynamicLookupIsFirst(cfg, tree, rest, httpMethod, path);
      assert forall i :: 0 <= i < |rest| ==> rest[i] == domains[i + 1];
      if domains[0] in tree {
        FirstInListsIsFirst(cfg, CollectFrom(tree[domains[0]], segs), httpMethod, path);
      }
      var r := DynamicLookup(cfg, tree, domains, httpMethod, path);
      if Misses(cfg, tree, domains[0], httpMethod, path) && r.Some? {
        var k :| HitAt(cfg, tree, rest, k, httpMethod, path, r);
        HitBehindMiss(cfg, tree, domains, k, httpMethod, path, r);
      } else if r.Some? {
        assert HitAt(cfg, tree, domains, 0, httpMethod, path, r);
      }
    }
  }

  /**
   * A request finds nothing exactly when neither domain has an exact key for
   * the path and neither domain's tree holds an accepting route along it.
   */
  lemma ResolveNoneIff(cfg: Config, rt: Routes, httpMethod: string, host: string, path: string)
    requires |path| > 0
    ensures Resolve(cfg, rt, httpMethod, host, path).None? <==>
      && HandlerKey(cfg.defaultDomain, httpMethod, path) !in rt.handlerMap
      && HandlerKey(HostName(host), httpMethod, path) !in rt.handlerMap
      && Misses(cfg, rt.handlerTree, cfg.defaultDomain, httpMethod, path)
      && Misses(cfg, rt.handlerTree, HostName(host), httpMethod, path)
  {
    var ds := Domains(cfg, host);
    ExactLookupIsFirst(rt.handlerMap, ds, httpMethod, path);
    DynamicLookupIsFirst(cfg, rt.handlerTree, ds, httpMethod, path);
  }

  /**
   * A route found by the dynamic phase is in a leaf list of the tree of one
   * of the tried domains, and accepts the request with the returned
   * parameters.
   */
  lemma {:induction false} DynamicLookupSound(cfg: Config, tree: map<string, Node>, domains: seq<string>, httpMethod: string, path: string)
    requires |path| > 0
    ensures var r := DynamicLookup(cfg, tree, domains, httpMethod, path);
      r.Some? ==> exists d, q :: (d in domains && d in tree && LeafAt(tree[d], q).Some?
        && r.value.item in LeafAt(tree[d], q).value
        && Accept(cfg, r.value.item, httpMethod, path) == Some(r.value.params))
    decreases |domains|
  {
    if domains != [] {
      var d := domains[0];
      var r := DynamicLookup(cfg, tree, domains, httpMethod, path);
      if d in tree && r == FirstInLists(cfg, CollectFrom(tree[d], Split(path[1..], '/')), httpMethod, path) && r.Some? {
        var segs := Split(path[1..], '/');
        var lists := CollectFrom(tree[d], segs);
        FirstInListsIsFirst(cfg, lists, httpMethod, path);
        CollectedAreLeaves(tree[d], segs);
        var i, j :| FirstAt(cfg, lists, httpMethod, path, i, j, r.value);
        var q := CollectPaths(tree[d], segs)[i];
        assert LeafAt(tree[d], q) == Some(lists[i]);
      } else {
        DynamicLookupSound(cfg, tree, domains[1..], httpMethod, path);
        assert forall x :: x in domains[1..] ==> x in domains;
      }
    }
  }

  /**
   * Soundness of searchHandler on a table built by registration: a result
   * is either the exact entry of one of the two domains, with no parameters,
   * or a dynamic route stored at the node its uri leads to in the tree of
   * one of the two domains, whose method and compiled rule accept the
   * request.
   */
  lemma ResolveSound(cfg: Config, rt: Routes, httpMethod: string, host: string, path: string)
    requires |path| > 0 && RoutesValid(rt)
    ensures var ds := Domains(cfg, host);
      var r := Resolve(cfg, rt, httpMethod, host, path);
      r.Some? ==>
        (exists i :: 0 <= i < |ds| && HandlerKey(ds[i], httpMethod, path) in rt.handlerMap
           && r.value == Found(rt.handlerMap[HandlerKey(ds[i], httpMethod, path)], map[]))
        || (exists d, q :: (d in ds && d in rt.handlerTree && LeafAt(rt.handlerTree[d], q).Some?
           && r.value.item in LeafAt(rt.handlerTree[d], q).value
           && ItemAt(d, q, r.value.item)
           && Accept(cfg, r.value.item, httpMethod, path) == Some(r.value.params)))
  {
    var ds := Domains(cfg, host);
    var r := Resolve(cfg, rt, httpMethod, host, path);
    ExactLookupIsFirst(rt.handlerMap, ds, httpMethod, path);
    if ExactLookup(rt.handlerMap, ds, httpMethod, path).None? && r.Some? {
      DynamicLookupSound(cfg, rt.handlerTree, ds, httpMethod, path);
      var d, q :| d in ds && d in rt.handlerTree && LeafAt(rt.handlerTree[d], q).Some?
        && r.value.item in LeafAt(rt.handlerTree[d], q).value
        && Accept(cfg, r.value.item, httpMethod, path) == Some(r.value.params);
      var l := LeafAt(rt.handlerTree[d], q).value;
      assert LeafValid(d, q, l);
      MemberOfValidLeaf(d, q, l, r.value.item);
    }
  }

  /** Every route held in a valid leaf list belongs at that node. */
  lemma MemberOfValidLeaf(d: string, q: seq<string>, l: seq<HandlerItem>, x: HandlerItem)
    requires LeafValid(d, q, l) && x in l
    ensures ItemAt(d, q, x)
  {
    var k :| 0 <= k < |l| && l[k] == x;
  }

  /**
   * A route accepts every path spelled out from its compiled rule with
   * fitting captures, and binds its i-th parameter name to the i-th capture
   * (names non-empty, without commas and distinct).
   */
  lemma AcceptInstantiated(cfg: Config, item: HandlerItem, httpMethod: string, caps: seq<string>)
    requires |item.uri| >= 2
    requires EqualFold(item.httpMethod, cfg.defaultMethod) || EqualFold(item.httpMethod, httpMethod)
    requires var ns := RuleNames(item.uri);
      forall i :: 0 <= i < |ns| ==> ns[i] != "" && ',' !in ns[i]
    requires var ns := RuleNames(item.uri);
      forall i, j :: 0 <= i < j < |ns| ==> ns[i] != ns[j]
    requires Fits(PatternToRegRule(item.uri).regex.tokens, caps)
    ensures var ns := RuleNames(item.uri);
      var rx := PatternToRegRule(item.uri).regex;
      var b := Accept(cfg, item, httpMethod, Instantiate(rx.tokens, caps));
      && b.Some?
      && |caps| == |ns|
      && b.value.Keys == (set i | 0 <= i < |ns| :: ns[i])
      && forall i :: 0 <= i < |ns| ==> b.value[ns[i]] == caps[i]
  {
    var rx := PatternToRegRule(item.uri).regex;
    PatternToRegRuleShape(item.uri);
    MatchInstantiate(rx.tokens, rx.closed, caps);
    CompiledRuleBinding(item.uri, Instantiate(rx.tokens, caps));
  }

  // ---------------------------------------------------------------------
  // The server object

  /** The dynamic phase's scan of the collected lists, as two nested loops. */
  method ScanLists(cfg: Config, lists: seq<seq<HandlerItem>>, httpMethod: string, path: string) returns (r: Option<Found>)
    ensures r == FirstInLists(cfg, lists, httpMethod, path)
  {
    var i := |lists|;
    assert lists[..i] == lists;
    while i > 0
      invariant 0 <= i <= |lists|
      invariant FirstInLists(cfg, lists, httpMethod, path) == FirstInLists(cfg, lists[..i], httpMethod, path)
    {
      assert lists[..i][..i - 1] == lists[..i - 1];
      i := i - 1;
      var l := lists[i];
      var j := 0;
      while j < |l|
        invariant 0 <= j <= |l|
        invariant FirstInList(cfg, l, httpMethod, path) == FirstInList(cfg, l[j..], httpMethod, path)
      {
        assert l[j..][1..] == l[j + 1..];
        var a := Accept(cfg, l[j], httpMethod, path);
        if a.Some? {
          return Some(Found(l[j], a.value));
        }
        j := j + 1;
      }
    }
    return None;
  }

  /** The server's route table, updated in place by registration. */
  class Server {
    const cfg: Config
    var handlerMap: map<string, HandlerItem>
    var handlerTree: map<string, Node>

    function Table(): Routes
      reads this
    {
      Routes(handlerMap, handlerTree)
    }

    ghost predicate Valid()
      reads this
    {
      RoutesValid(Table())
    }

    constructor (cfg: Config)
      ensures this.cfg == cfg && Table() == NoRoutes && Valid()
    {
      this.cfg := cfg;
      handlerMap := map[];
      handlerTree := map[];
    }

    /**
     * setHandler: on an empty pattern the error and no change; otherwise the
     * table becomes what Register computes, and the trees' invariant is kept.
     */
    method SetHandler(pattern: string, item: HandlerItem) returns (err: Option<RouteError>)
      modifies this
      ensures var r := Register(cfg, old(Table()), pattern, item);
        && (r.Err? ==> err == Some(InvalidPattern) && Table() == old(Table()))
        && (r.Ok? ==> err == None && Table() == r.value)
      ensures old(Valid()) ==> Valid()
    {
      ghost var before := Table();
      var parsed := ParsePattern(cfg, pattern);
      if parsed.Err? {
        return Some(InvalidPattern);
      }
      var p := parsed.value;
      var it := Stamp(item, p);
      WriteExact(p, pattern, it);
      if IsUriHasRule(p.uri) {
        WriteTree(it);
      }
      err := None;
      if RoutesValid(before) {
        RegisterKeepsValid(cfg, before, pattern, item);
      }
    }

    /** The exact-table half of setHandler: one write per key, the trees untouched. */
    method WriteExact(p: Parsed, pattern: string, it: HandlerItem)
      modifies this
      ensures handlerMap == StoreExact(old(handlerMap), ExactKeys(cfg, p.domain, p.httpMethod, pattern), it)
      ensures handlerTree == old(handlerTree)
    {
      if p.httpMethod == cfg.defaultMethod {
        var rest := cfg.methods;
        while rest != {}
          invariant rest <= cfg.methods
          invariant handlerMap == StoreExact(old(handlerMap), set v | v in cfg.methods - rest :: HandlerKey(p.domain, v, pattern), it)
          invariant handlerTree == old(handlerTree)
          decreases rest
        {
          var v :| v in rest;
          ghost var done := set x | x in cfg.methods - rest :: HandlerKey(p.domain, x, pattern);
          handlerMap := handlerMap[HandlerKey(p.domain, v, pattern) := it];
          rest := rest - {v};
          assert (set x | x in cfg.methods - rest :: HandlerKey(p.domain, x, pattern)) == done + {HandlerKey(p.domain, v, pattern)};
          StoreExactStep(old(handlerMap), done, HandlerKey(p.domain, v, pattern), it);
        }
        assert cfg.methods - rest == cfg.methods;
      } else {
        handlerMap := handlerMap[HandlerKey(p.domain, p.httpMethod, pattern) := it];
        StoreExactStep(old(handlerMap), {}, HandlerKey(p.domain, p.httpMethod, pattern), it);
      }
    }

    /**
     * The tree half of setHandler: walk the uri's segments to its node in
     * the domain's tree (creating missing nodes) and splice the route into
     * that node's list by priority.
     */
    method WriteTree(it: HandlerItem)
      requires |it.uri| > 0
      modifies this
      ensures handlerTree == InsertDynamic(old(handlerTree), it)
      ensures handlerMap == old(handlerMap)
    {
      var root := if it.domain in handlerTree then handlerTree[it.domain] else EmptyNode;
      var path := WalkSegments(it.uri);
      var current := if LeafAt(root, path).Some? then LeafAt(root, path).value else [];
      assert root == RootOf(handlerTree, it.domain) && current == LeafAt(root, path).GetOr([]);
      var l := InsertIntoLeaf(current, it);
      handlerTree := handlerTree[it.domain := PutLeaf(root, path, l)];
    }

    /** searchHandler for a request's method, host and path. */
    method SearchHandler(httpMethod: string, host: string, path: string) returns (r: Option<Found>)
      requires |path| > 0
      ensures r == Resolve(cfg, Table(), httpMethod, host, path)
    {
      var domains := [cfg.defaultDomain, HostName(host)];
      for i := 0 to |domains|
        invariant ExactLookup(handlerMap, domains, httpMethod, path) == ExactLookup(handlerMap, domains[i..], httpMethod, path)
      {
        assert domains[i..][1..] == domains[i + 1..];
        var k := HandlerKey(domains[i], httpMethod, path);
        if k in handlerMap {
          return Some(Found(handlerMap[k], map[]));
        }
      }
      var segs := Split(path[1..], '/');
      for i := 0 to |domains|
        invariant DynamicLookup(cfg, handlerTree, domains, httpMethod, path) == DynamicLookup(cfg, handlerTree, domains[i..], httpMethod, path)
      {
        assert domains[i..][1..] == domains[i + 1..];
        var d := domains[i];
        if d in handlerTree {
          var lists := CollectLists(handlerTree[d], segs);
          var found := ScanLists(cfg, lists, httpMethod, path);
          if found.Some? {
            return found;
          }
        }
      }
      return None;
    }
  }

  /** Writing one more key: the same as storing under the larger key set. */
  lemma StoreExactStep(m: map<string, HandlerItem>, keys: set<string>, k: string, item: HandlerItem)
    ensures StoreExact(m, keys + {k}, item) == StoreExact(m, keys, item)[k := item]
  {
  }
}
