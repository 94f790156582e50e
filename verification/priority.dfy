/**
 * How dynamic routes are ranked inside one leaf list of the pattern tree:
 * compareHandlerItemPriority, and the walk of setHandler that splices a new
 * route in front of the first route it outranks.
 */
module Priority {
  import opened Entities

  /**
   * strings.Count(uri, "/:"). Two occurrences of "/:" can never overlap, so
   * counting at every position gives Go's non-overlapping count.
   */
  function MarkerCount(s: string): nat {
    if |s| < 2 then 0
    else (if s[0] == '/' && s[1] == ':' then 1 else 0) + MarkerCount(s[1..])
  }

  /**
   * compareHandlerItemPriority(newItem, oldItem): the new route ranks strictly
   * higher, by priority first and then by the number of `/:` markers.
   */
  predicate Outranks(newItem: HandlerItem, oldItem: HandlerItem) {
    if newItem.priority > oldItem.priority then true
    else if newItem.priority < oldItem.priority then false
    else MarkerCount(newItem.uri) > MarkerCount(oldItem.uri)
  }

  /**
   * The comparator is the strict part of the lexicographic order on
   * (priority, marker count): a strict weak order, so "neither outranks the
   * other" is an equivalence (equal rank).
   */
  lemma OutranksIsStrictWeakOrder(a: HandlerItem, b: HandlerItem, c: HandlerItem)
    ensures Outranks(a, b) <==>
      a.priority > b.priority || (a.priority == b.priority && MarkerCount(a.uri) > MarkerCount(b.uri))
    ensures !Outranks(a, a)
    ensures Outranks(a, b) ==> !Outranks(b, a)
    ensures Outranks(a, b) && Outranks(b, c) ==> Outranks(a, c)
    ensures !Outranks(a, b) && !Outranks(b, c) ==> !Outranks(a, c)
  {
  }

  /** Ranks never increase from the front of a leaf list to its back. */
  ghost predicate Sorted(l: seq<HandlerItem>) {
    forall i, j :: 0 <= i < j < |l| ==> !Outranks(l[j], l[i])
  }

  /** Where the walk of setHandler stops: the first entry the new route outranks, or the end. */
  function FirstOutranked(l: seq<HandlerItem>, item: HandlerItem): (k: nat)
    ensures k <= |l|
    ensures forall j :: 0 <= j < k ==> !Outranks(item, l[j])
    ensures k < |l| ==> Outranks(item, l[k])
  {
    if l == [] then 0
    else if Outranks(item, l[0]) then 0
    else 1 + FirstOutranked(l[1..], item)
  }

  /** The leaf list after setHandler has spliced `item` into it. */
  function InsertByPriority(l: seq<HandlerItem>, item: HandlerItem): (r: seq<HandlerItem>)
    ensures |r| == |l| + 1
    ensures multiset(r) == multiset(l) + multiset{item}
  {
    var k := FirstOutranked(l, item);
    assert l == l[..k] + l[k..];
    l[..k] + [item] + l[k..]
  }

  /**
   * The walk over the leaf list: insert before the first entry the new route
   * outranks (InsertBefore), or append when there is none (PushBack).
   */
  method InsertIntoLeaf(l: seq<HandlerItem>, item: HandlerItem) returns (r: seq<HandlerItem>)
    ensures r == InsertByPriority(l, item)
  {
    var i := 0;
    while i < |l|
      invariant 0 <= i <= |l|
      invariant forall j :: 0 <= j < i ==> !Outranks(item, l[j])
    {
      if Outranks(item, l[i]) {
        r := l[..i] + [item] + l[i..];
        return;
      }
      i := i + 1;
    }
    assert l[..i] + [item] + l[i..] == l + [item];
    r := l + [item];
  }

  /**
   * Placement in a sorted list: the new route lands after exactly the entries
   * it does not outrank (so after every entry of equal rank), and taking it
   * out again gives back the old list in its old order.
   */
  lemma InsertPlacement(l: seq<HandlerItem>, item: HandlerItem)
    requires Sorted(l)
    ensures var k := FirstOutranked(l, item); var r := InsertByPriority(l, item);
      && r[k] == item
      && r[..k] + r[k + 1..] == l
      && forall j :: 0 <= j < |l| ==> (j < k <==> !Outranks(item, l[j]))
  {
    InsertSplits(l, item);
    OutranksFromInsertionPoint(l, item);
  }

  /** The inserted list is the old one with the new route at the insertion point. */
  lemma InsertSplits(l: seq<HandlerItem>, item: HandlerItem)
    ensures var k := FirstOutranked(l, item); var r := InsertByPriority(l, item);
      r[k] == item && r[..k] + r[k + 1..] == l
  {
    SpliceAt(l, FirstOutranked(l, item), item);
  }

  /** Splicing an item in at position `k` and taking it out again. */
  lemma SpliceAt(l: seq<HandlerItem>, k: nat, item: HandlerItem)
    requires k <= |l|
    ensures var r := l[..k] + [item] + l[k..];
      r[k] == item && r[..k] + r[k + 1..] == l
  {
    var r := l[..k] + [item] + l[k..];
    assert r[..k] == l[..k];
    assert r[k + 1..] == l[k..];
    assert l[..k] + l[k..] == l;
  }

  /** In a sorted list the new item outranks everything from its insertion point on. */
  lemma OutranksFromInsertionPoint(l: seq<HandlerItem>, item: HandlerItem)
    requires Sorted(l)
    ensures forall j :: FirstOutranked(l, item) <= j < |l| ==> Outranks(item, l[j])
  {
    var k := FirstOutranked(l, item);
    forall j | k <= j < |l|
      ensures Outranks(item, l[j])
    {
      if j > k {
        assert !Outranks(l[j], l[k]);
        OutranksIsStrictWeakOrder(item, l[j], l[k]);
      }
    }
  }

  /** Insertion keeps a leaf list sorted. */
  lemma InsertKeepsSorted(l: seq<HandlerItem>, item: HandlerItem)
    requires Sorted(l)
    ensures Sorted(InsertByPriority(l, item))
  {
    var k := FirstOutranked(l, item);
    var r := InsertByPriority(l, item);
    InsertPlacement(l, item);
    forall i, j | 0 <= i < j < |r|
      ensures !Outranks(r[j], r[i])
    {
      InsertedAt(l, item, i);
      InsertedAt(l, item, j);
      if i == k {
        OutranksIsStrictWeakOrder(r[j], item, l[j - 1]);
      }
    }
  }

  /** Of two items of equal rank inserted one after the other, the later one ends up behind the earlier one. */
  lemma InsertKeepsArrivalOrder(l: seq<HandlerItem>, a: HandlerItem, b: HandlerItem)
    requires Sorted(l) && !Outranks(a, b) && !Outranks(b, a)
    ensures var r := InsertByPriority(InsertByPriority(l, a), b);
      exists i, j :: 0 <= i < j < |r| && r[i] == a && r[j] == b
  {
    var l1 := InsertByPriority(l, a);
    var k1 := FirstOutranked(l, a);
    var k2 := FirstOutranked(l1, b);
    InsertPlacement(l, a);
    InsertKeepsSorted(l, a);
    InsertPlacement(l1, b);
    assert l1[k1] == a && !Outranks(b, a);
    assert k1 < k2;
    InsertedAt(l1, b, k1);
    InsertedAt(l1, b, k2);
  }

  /** Where each element of the list sits after the insertion. */
  lemma InsertedAt(l: seq<HandlerItem>, item: HandlerItem, i: int)
    requires 0 <= i <= |l|
    ensures var k := FirstOutranked(l, item);
      InsertByPriority(l, item)[i] == if i < k then l[i] else if i == k then item else l[i - 1]
  {
    var k := FirstOutranked(l, item);
    var r := InsertByPriority(l, item);
    if i < k {
      assert r[i] == l[..k][i];
    } else if i > k {
      assert r[i] == l[k..][i - k - 1];
    }
  }
}
