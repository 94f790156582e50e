/**
 * The per-domain pattern tree of dynamic routes (handlerTree[domain]). In
 * the source a node is a map from a segment to the next node, with the leaf
 * list stored under the reserved key "*list"; here a node is a value with
 * the child map and the optional leaf list as separate fields.
 */
module Tree {
  import opened Options
  import opened Strings
  import opened Entities

  datatype Node = Node(children: map<string, Node>, leaf: Option<seq<HandlerItem>>)

  /** What `make(map[string]interface{})` creates. */
  const EmptyNode := Node(map[], None)

  // ---------------------------------------------------------------------
  // The path a uri takes through the tree

  /** The edge a non-empty segment follows: every `:name` and `*name` segment shares the edge `/`. */
  function EdgeOf(seg: string): string
    requires |seg| > 0
  {
    if seg[0] == ':' || seg[0] == '*' then "/" else seg
  }

  /** The non-empty segments, in order. */
  function NonEmpty(segs: seq<string>): (r: seq<string>)
    ensures |r| <= |segs|
    ensures forall i :: 0 <= i < |r| ==> |r[i]| > 0 && r[i] in segs
    decreases |segs|
  {
    if segs == [] then []
    else (if |segs[0]| == 0 then [] else [segs[0]]) + NonEmpty(segs[1..])
  }

  /** Filtering a list with one more segment at its end. */
  lemma {:induction false} NonEmptySnoc(init: seq<string>, last: string)
    ensures NonEmpty(init + [last]) == NonEmpty(init) + (if |last| == 0 then [] else [last])
    decreases |init|
  {
    if init == [] {
      assert [last][1..] == [];
    } else {
      assert (init + [last])[1..] == init[1..] + [last];
      NonEmptySnoc(init[1..], last);
    }
  }

  /**
   * The edges followed for a list of segments: one edge per non-empty
   * segment, in order, the segment's own edge (EdgeOf).
   */
  function DescentPath(segs: seq<string>): (path: seq<string>)
    ensures |path| == |NonEmpty(segs)|
    ensures forall i :: 0 <= i < |path| ==> path[i] == EdgeOf(NonEmpty(segs)[i])
    decreases |segs|
  {
    if segs == [] then []
    else
      var init := DescentPath(segs[..|segs| - 1]);
      var last := segs[|segs| - 1];
      assert segs == segs[..|segs| - 1] + [last];
      NonEmptySnoc(segs[..|segs| - 1], last);
      if |last| == 0 then init else init + [EdgeOf(last)]
  }

  /** Every edge is non-empty, and is either the shared `/` edge or a segment that starts with neither `:` nor `*`. */
  lemma EdgesOfPath(segs: seq<string>)
    ensures forall i :: 0 <= i < |DescentPath(segs)| ==>
      |DescentPath(segs)[i]| > 0 && (DescentPath(segs)[i] == "/" ||
        (DescentPath(segs)[i] in segs && DescentPath(segs)[i][0] != ':' && DescentPath(segs)[i][0] != '*'))
  {
  }

  /** One step of DescentPath: the last segment adds its edge unless it is empty. */
  lemma DescentStep(segs: seq<string>, init: seq<string>, last: string)
    requires segs == init + [last]
    ensures DescentPath(segs) == if |last| == 0 then DescentPath(init) else DescentPath(init) + [EdgeOf(last)]
  {
    assert segs[..|segs| - 1] == init;
  }

  /** The node a uri's routes are stored at: the walk of setHandler over `strings.Split(uri[1:], "/")`. */
  function UriPath(uri: string): seq<string>
    requires |uri| > 0
  {
    DescentPath(Split(uri[1..], '/'))
  }

  /** `len(strings.Split(uri[1:], "/"))`, the priority of a dynamic route, empty pieces included. */
  function SegmentCount(uri: string): (n: nat)
    requires |uri| > 0
    ensures n >= 1 && n >= |UriPath(uri)|
  {
    |Split(uri[1..], '/')|
  }

  /**
   * The walk of setHandler as a loop: one edge per non-empty segment, with
   * `:name` and `*name` segments turned into `/`.
   */
  method WalkSegments(uri: string) returns (path: seq<string>)
    requires |uri| > 0
    ensures path == UriPath(uri)
  {
    var segs := Split(uri[1..], '/');
    path := [];
    for k := 0 to |segs|
      invariant path == DescentPath(segs[..k])
    {
      assert segs[..k + 1][..k] == segs[..k];
      var v := segs[k];
      if |v| == 0 {
        continue;
      }
      if v[0] == ':' || v[0] == '*' {
        v := "/";
      }
      path := path + [v];
    }
    assert segs[..|segs|] == segs;
  }

  // ---------------------------------------------------------------------
  // Leaves

  /** The leaf list of the node at the end of `path`, if that node exists and has one. */
  function LeafAt(n: Node, path: seq<string>): Option<seq<HandlerItem>>
    decreases |path|
  {
    if path == [] then n.leaf
    else if path[0] in n.children then LeafAt(n.children[path[0]], path[1..])
    else None
  }

  /** The tree with the leaf list at `path` set to `l`, missing nodes on the way created empty. */
  function PutLeaf(n: Node, path: seq<string>, l: seq<HandlerItem>): Node
    decreases |path|
  {
    if path == [] then n.(leaf := Some(l))
    else
      var child := if path[0] in n.children then n.children[path[0]] else EmptyNode;
      n.(children := n.children[path[0] := PutLeaf(child, path[1..], l)])
  }

  /** A fresh tree has no leaf anywhere. */
  lemma EmptyHasNoLeaf(path: seq<string>)
    ensures LeafAt(EmptyNode, path) == None
  {
  }

  /**
   * Setting a leaf: the node at `path` now holds `l`, and every other leaf
   * is what it was (nodes created on the way have no leaf).
   */
  lemma {:induction false} LeafAtPut(n: Node, path: seq<string>, l: seq<HandlerItem>, q: seq<string>)
    ensures LeafAt(PutLeaf(n, path, l), q) == if q == path then Some(l) else LeafAt(n, q)
    decreases |path|
  {
    if path != [] && q != [] && q[0] == path[0] {
      var child := if path[0] in n.children then n.children[path[0]] else EmptyNode;
      LeafAtPut(child, path[1..], l, q[1..]);
      if path[0] !in n.children {
        EmptyHasNoLeaf(q[1..]);
      }
      assert q == path <==> q[1..] == path[1..] by {
        if q[1..] == path[1..] {
          assert q == [q[0]] + q[1..] && path == [path[0]] + path[1..];
        }
      }
    }
  }

  // ---------------------------------------------------------------------
  // The descent of searchHandler

  /** The leaf list of a node, as a list of at most one list. */
  function ListOf(n: Node): (r: seq<seq<HandlerItem>>)
    ensures |r| <= 1 && (|r| == 1 <==> n.leaf.Some?)
  {
    if n.leaf.Some? then [n.leaf.value] else []
  }

  /**
   * The lists searchHandler collects from node `p` over the remaining
   * request segments. At each segment the current node's list is taken; the
   * walk then follows the segment's own edge, or else the `/` edge, or else
   * stays where it is (so the same list can be taken again); after the last
   * segment the list of the node reached by an edge is taken too.
   */
  function CollectFrom(p: Node, segs: seq<string>): seq<seq<HandlerItem>>
    decreases |segs|
  {
    if segs == [] then []
    else
      var here := ListOf(p);
      var last := |segs| == 1;
      if segs[0] in p.children then
        var q := p.children[segs[0]];
        here + (if last then ListOf(q) else []) + CollectFrom(q, segs[1..])
      else if "/" in p.children then
        var q := p.children["/"];
        here + (if last then ListOf(q) else []) + CollectFrom(q, segs[1..])
      else here + CollectFrom(p, segs[1..])
  }

  /** The descent loop of searchHandler for one domain. */
  method CollectLists(root: Node, segs: seq<string>) returns (lists: seq<seq<HandlerItem>>)
    ensures lists == CollectFrom(root, segs)
  {
    lists := [];
    var p := root;
    for k := 0 to |segs|
      invariant lists + CollectFrom(p, segs[k..]) == CollectFrom(root, segs)
    {
      var v := segs[k];
      ghost var before, p0 := lists, p;
      if p.leaf.Some? {
        lists := lists + [p.leaf.value];
      }
      if v !in p.children {
        if "/" in p.children {
          p := p.children["/"];
          if k == |segs| - 1 && p.leaf.Some? {
            lists := lists + [p.leaf.value];
          }
        }
      } else {
        p := p.children[v];
        if k == |segs| - 1 && p.leaf.Some? {
          lists := lists + [p.leaf.value];
        }
      }
      ghost var taken := Taken(p0, v, k == |segs| - 1);
      ghost var rest := CollectFrom(p, segs[k + 1..]);
      assert p == Descend(p0, v);
      assert lists == before + taken;
      CollectFromStep(p0, segs[k..]);
      assert segs[k..][1..] == segs[k + 1..];
      assert CollectFrom(p0, segs[k..]) == taken + rest;
      ConcatAssoc(before, taken, rest);
    }
  }

  lemma ConcatAssoc(a: seq<seq<HandlerItem>>, b: seq<seq<HandlerItem>>, c: seq<seq<HandlerItem>>)
    ensures (a + b) + c == a + (b + c)
  {
  }

  /** The node one step of the descent moves to on segment `v`: the exact edge, else the dynamic edge, else `p` itself. */
  function Descend(p: Node, v: string): (q: Node)
    ensures q == p || q in p.children.Values
  {
    if v in p.children then p.children[v]
    else if "/" in p.children then p.children["/"]
    else p
  }

  /** The lists one step of the descent takes: the list of `p`, then, on the last segment, the list of the node moved to. */
  function Taken(p: Node, v: string, last: bool): (t: seq<seq<HandlerItem>>)
    ensures |t| <= 2
  {
    var moved := v in p.children || "/" in p.children;
    ListOf(p) + (if last && moved then ListOf(Descend(p, v)) else [])
  }

  lemma CollectFromStep(p: Node, segs: seq<string>)
    requires segs != []
    ensures CollectFrom(p, segs) == Taken(p, segs[0], |segs| == 1) + CollectFrom(Descend(p, segs[0]), segs[1..])
  {
  }

  /** The paths, from `p`, of the nodes whose lists CollectFrom takes, in the same order. */
  function CollectPaths(p: Node, segs: seq<string>): seq<seq<string>>
    decreases |segs|
  {
    if segs == [] then []
    else
      var here := if p.leaf.Some? then [[]] else [];
      var last := |segs| == 1;
      var e := if segs[0] in p.children then segs[0] else "/";
      if e in p.children then
        var q := p.children[e];
        here + (if last && q.leaf.Some? then [[e]] else []) + Prefixed(e, CollectPaths(q, segs[1..]))
      else here + CollectPaths(p, segs[1..])
  }

  function Prefixed(e: string, paths: seq<seq<string>>): (r: seq<seq<string>>)
    ensures |r| == |paths| && forall i :: 0 <= i < |r| ==> r[i] == [e] + paths[i]
  {
    seq(|paths|, i requires 0 <= i < |paths| => [e] + paths[i])
  }

  /** The lists are the leaves at the paths, and the paths get no shallower along the sequence. */
  predicate LeavesAlong(p: Node, lists: seq<seq<HandlerItem>>, paths: seq<seq<string>>) {
    && |paths| == |lists|
    && (forall i :: 0 <= i < |lists| ==> LeafAt(p, paths[i]) == Some(lists[i]))
    && (forall i, j :: 0 <= i < j < |paths| ==> |paths[i]| <= |paths[j]|)
  }

  lemma LeavesAlongConcat(p: Node, a: seq<seq<HandlerItem>>, ap: seq<seq<string>>, b: seq<seq<HandlerItem>>, bp: seq<seq<string>>)
    requires LeavesAlong(p, a, ap) && LeavesAlong(p, b, bp)
    requires forall i, j :: 0 <= i < |ap| && 0 <= j < |bp| ==> |ap[i]| <= |bp[j]|
    ensures LeavesAlong(p, a + b, ap + bp)
  {
    var ps := ap + bp;
    forall i, j | 0 <= i < j < |ps|
      ensures |ps[i]| <= |ps[j]|
    {
      if j < |ap| {
      } else if i < |ap| {
        assert ps[j] == bp[j - |ap|];
      } else {
        assert ps[i] == bp[i - |ap|] && ps[j] == bp[j - |ap|];
      }
    }
  }

  /** Following edge `e` from `p`: what is collected below lies below `p` along `[e]`. */
  lemma LeavesAlongChild(p: Node, e: string, lists: seq<seq<HandlerItem>>, paths: seq<seq<string>>)
    requires e in p.children && LeavesAlong(p.children[e], lists, paths)
    ensures LeavesAlong(p, lists, Prefixed(e, paths))
    ensures forall i :: 0 <= i < |paths| ==> |Prefixed(e, paths)[i]| >= 1
  {
    var pp := Prefixed(e, paths);
    forall i | 0 <= i < |lists|
      ensures LeafAt(p, pp[i]) == Some(lists[i])
    {
      assert pp[i][1..] == paths[i];
    }
  }

  /** Following edge `e` out of `p` on the first segment: the lists taken on the way down are leaves below `p`. */
  lemma CollectedThroughEdge(p: Node, segs: seq<string>, e: string)
    requires segs != [] && e == (if segs[0] in p.children then segs[0] else "/") && e in p.children
    requires var q := p.children[e];
      LeavesAlong(q, CollectFrom(q, segs[1..]), CollectPaths(q, segs[1..]))
    ensures LeavesAlong(p, CollectFrom(p, segs), CollectPaths(p, segs))
  {
    var last := |segs| == 1;
    var q := p.children[e];
    var here := ListOf(p);
    var hereP: seq<seq<string>> := if p.leaf.Some? then [[]] else [];
    var mid := if last then ListOf(q) else [];
    var midP: seq<seq<string>> := if last && q.leaf.Some? then [[e]] else [];
    var rest := CollectFrom(q, segs[1..]);
    var restP := Prefixed(e, CollectPaths(q, segs[1..]));
    assert LeavesAlong(p, here, hereP);
    ChildLeafAlong(p, e, last);
    LeavesAlongChild(p, e, rest, CollectPaths(q, segs[1..]));
    LeavesAlongConcat(p, here, hereP, mid, midP);
    LeavesAlongConcat(p, here + mid, hereP + midP, rest, restP);
    CollectThroughEdgeIs(p, segs, e);
  }

  /** The list taken from the child on the last segment is the leaf one step below `p`. */
  lemma ChildLeafAlong(p: Node, e: string, last: bool)
    requires e in p.children
    ensures var q := p.children[e];
      LeavesAlong(p, if last then ListOf(q) else [], if last && q.leaf.Some? then [[e]] else [])
  {
    var q := p.children[e];
    if last && q.leaf.Some? {
      assert [e][1..] == [];
      assert LeafAt(p, [e]) == q.leaf;
    }
  }

  /** One step of CollectFrom and CollectPaths through the edge `e`. */
  lemma CollectThroughEdgeIs(p: Node, segs: seq<string>, e: string)
    requires segs != [] && e == (if segs[0] in p.children then segs[0] else "/") && e in p.children
    ensures var last := |segs| == 1;
      var q := p.children[e];
      && CollectFrom(p, segs) == ListOf(p) + (if last then ListOf(q) else []) + CollectFrom(q, segs[1..])
      && CollectPaths(p, segs) == (if p.leaf.Some? then [[]] else []) + (if last && q.leaf.Some? then [[e]] else [])
           + Prefixed(e, CollectPaths(q, segs[1..]))
  {
  }

  /**
   * Every list the descent collects is the leaf list of a node of the tree,
   * and the nodes get no shallower from the first list to the last, which
   * is why searchHandler tries the lists from the last one back.
   */
  lemma {:induction false} CollectedAreLeaves(p: Node, segs: seq<string>)
    ensures LeavesAlong(p, CollectFrom(p, segs), CollectPaths(p, segs))
    decreases |segs|
  {
    if segs != [] {
      var e := if segs[0] in p.children then segs[0] else "/";
      if e in p.children {
        CollectedAreLeaves(p.children[e], segs[1..]);
        CollectedThroughEdge(p, segs, e);
      } else {
        CollectedAreLeaves(p, segs[1..]);
        var hereP: seq<seq<string>> := if p.leaf.Some? then [[]] else [];
        LeavesAlongConcat(p, ListOf(p), hereP, CollectFrom(p, segs[1..]), CollectPaths(p, segs[1..]));
      }
    }
  }
}
