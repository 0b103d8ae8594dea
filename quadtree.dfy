/**
 * The node operations of the quadtree index (NodeBase): quadrant selection,
 * removal with pruning of emptied subtrees, and the size, depth and
 * emptiness queries over a tree whose nodes hold items and up to four
 * subnodes. The abstract value of a subtree is a QTree; QuadNode is the
 * in-place node whose subnode slots live in an array.
 */
module Quadtree {
  import opened Coords
  import opened Wrappers

  // ---------------------------------------------------------------------------
  // Quadrant selection

  /**
   * getSubnodeIndex: the subquad (numbered 2 | 3 over 0 | 1) that wholly
   * contains env, or -1. The guards are tested in getSubnodeIndex's order, so a
   * later assignment wins: 0 over 2 over 1 over 3.
   */
  function SubnodeIndex(env: Envelope, centreX: real, centreY: real): (r: int)
    ensures -1 <= r <= 3
    ensures r == 0 ==> env.MaxX() <= centreX && env.MaxY() <= centreY
    ensures r == 1 ==> env.MinX() >= centreX && env.MaxY() <= centreY
    ensures r == 2 ==> env.MaxX() <= centreX && env.MinY() >= centreY
    ensures r == 3 ==> env.MinX() >= centreX && env.MinY() >= centreY
    ensures r == -1 <==>
      !((env.MaxX() <= centreX && env.MaxY() <= centreY) ||
        (env.MinX() >= centreX && env.MaxY() <= centreY) ||
        (env.MaxX() <= centreX && env.MinY() >= centreY) ||
        (env.MinX() >= centreX && env.MinY() >= centreY))
  {
    var right := if env.MinX() >= centreX then
        (if env.MaxY() <= centreY then 1 else if env.MinY() >= centreY then 3 else -1)
      else -1;
    if env.MaxX() <= centreX then
      (if env.MaxY() <= centreY then 0 else if env.MinY() >= centreY then 2 else right)
    else right
  }

  /** When an envelope fits more than one quadrant, the lower-left one is chosen. */
  lemma SubnodeIndexPriority(env: Envelope, centreX: real, centreY: real)
    ensures env.MaxX() <= centreX && env.MaxY() <= centreY ==> SubnodeIndex(env, centreX, centreY) == 0
    ensures env.MaxX() <= centreX && env.MinY() >= centreY && env.MaxY() > centreY ==>
      SubnodeIndex(env, centreX, centreY) == 2
    ensures env.MaxX() > centreX && env.MinX() >= centreX && env.MaxY() <= centreY ==>
      SubnodeIndex(env, centreX, centreY) == 1
  {
  }

  // ---------------------------------------------------------------------------
  // The abstract subtree

  /**
   * A subtree: the node's isSearchMatch test, its items, and its subnode
   * slots (None for a null slot).
   */
  datatype QTree<T> = QNode(matches: Envelope -> bool, items: seq<T>, sub: seq<Option<QTree<T>>>)

  /** hasChildren: some slot is non-null. */
  predicate TreeHasChildren<T>(t: QTree<T>)
  {
    exists i :: 0 <= i < |t.sub| && t.sub[i].Some?
  }

  /** isPrunable: no children and no items. */
  predicate Prunable<T>(t: QTree<T>)
  {
    !(TreeHasChildren(t) || |t.items| > 0)
  }

  /** size: the items of this node and of every subtree below it. */
  function TreeSize<T>(t: QTree<T>): nat
    decreases t, |t.sub| + 1
  {
    SlotsSize(t, |t.sub|) + |t.items|
  }

  /** The sizes of the subtrees in slots 0 .. k-1. */
  function SlotsSize<T>(t: QTree<T>, k: nat): nat
    requires k <= |t.sub|
    decreases t, k
  {
    if k == 0 then 0
    else SlotsSize(t, k - 1) + (if t.sub[k - 1].Some? then TreeSize(t.sub[k - 1].value) else 0)
  }

  /** depth: one more than the deepest subtree (1 for a node without children). */
  function TreeDepth<T>(t: QTree<T>): nat
    decreases t, |t.sub| + 1
  {
    SlotsDepth(t, |t.sub|) + 1
  }

  /** The greatest depth of the subtrees in slots 0 .. k-1 (0 when all are null). */
  function SlotsDepth<T>(t: QTree<T>, k: nat): nat
    requires k <= |t.sub|
    decreases t, k
  {
    if k == 0 then 0
    else
      var m := SlotsDepth(t, k - 1);
      if t.sub[k - 1].Some? && TreeDepth(t.sub[k - 1].value) > m then TreeDepth(t.sub[k - 1].value) else m
  }

  /** isEmpty: no items here and every non-null subtree is empty. */
  predicate TreeIsEmpty<T>(t: QTree<T>)
    decreases t, |t.sub| + 1
  {
    |t.items| == 0 && SlotsEmpty(t, |t.sub|)
  }

  /** Every non-null subtree in slots 0 .. k-1 is empty. */
  predicate SlotsEmpty<T>(t: QTree<T>, k: nat)
    requires k <= |t.sub|
    decreases t, k
  {
    k == 0 || (SlotsEmpty(t, k - 1) && (t.sub[k - 1].None? || TreeIsEmpty(t.sub[k - 1].value)))
  }

  /** addAllItems: this node's items, then those of each subtree in slot order. */
  function AllItems<T>(t: QTree<T>): seq<T>
    decreases t, |t.sub| + 1
  {
    t.items + SlotsItems(t, |t.sub|)
  }

  /** The items of the subtrees in slots 0 .. k-1, in slot order. */
  function SlotsItems<T>(t: QTree<T>, k: nat): seq<T>
    requires k <= |t.sub|
    decreases t, k
  {
    if k == 0 then []
    else SlotsItems(t, k - 1) + (if t.sub[k - 1].Some? then AllItems(t.sub[k - 1].value) else [])
  }

  /** List.indexOf(Object) on a list holding x: the position of its first occurrence. */
  function FirstIndex<T(==)>(s: seq<T>, x: T): (i: nat)
    requires x in s
    ensures i < |s| && s[i] == x && x !in s[..i]
  {
    if s[0] == x then 0
    else
      var k := FirstIndex(s[1..], x);
      assert s[..k + 1] == [s[0]] + s[1..][..k];
      k + 1
  }

  /** List.remove(Object): drop the first occurrence of x, if any. */
  function RemoveFirst<T(==)>(s: seq<T>, x: T): (r: seq<T>)
    ensures x in s ==> multiset(r) == multiset(s) - multiset{x} && |r| == |s| - 1
    ensures x !in s ==> r == s
  {
    if s == [] then []
    else if s[0] == x then
      assert s == [s[0]] + s[1..];
      s[1..]
    else
      var rest := RemoveFirst(s[1..], x);
      assert s == [s[0]] + s[1..];
      [s[0]] + rest
  }

  /** The occurrence List.remove(Object) drops is the first one: the rest keeps its order. */
  lemma {:induction false} RemoveFirstAtFirstIndex<T>(s: seq<T>, x: T)
    requires x in s
    ensures RemoveFirst(s, x) == s[..FirstIndex(s, x)] + s[FirstIndex(s, x) + 1..]
  {
    if s[0] != x {
      var tail := s[1..];
      var k := FirstIndex(tail, x);
      var rest := RemoveFirst(tail, x);
      assert FirstIndex(s, x) == k + 1;
      assert RemoveFirst(s, x) == [s[0]] + rest;
      RemoveFirstAtFirstIndex(tail, x);
      ShiftOccurrence(s, tail, x, k, rest);
    }
  }

  /** The slices of s around position k + 1 are those of its tail around k, with s[0] in front. */
  lemma ShiftOccurrence<T>(s: seq<T>, tail: seq<T>, x: T, k: nat, rest: seq<T>)
    requires s != [] && s[0] != x && tail == s[1..] && k < |tail|
    requires tail[k] == x && rest == tail[..k] + tail[k + 1..]
    ensures [s[0]] + rest == s[..k + 1] + s[k + 2..]
  {
    assert s == [s[0]] + tail;
    var front, back := s[..k + 1], s[k + 2..];
    assert front == [s[0]] + tail[..k];
    assert back == tail[k + 1..];
  }

  /**
   * remove: None when the item is not found (the subtree is then unchanged),
   * otherwise the subtree with the item removed. The search is skipped when
   * isSearchMatch fails, tries the subtrees in slot order first and stops at
   * the first success, nulling that slot if its subtree became prunable, and
   * only then removes from this node's own items.
   */
  function TreeRemove<T(==)>(t: QTree<T>, itemEnv: Envelope, item: T): Option<QTree<T>>
    decreases t, |t.sub| + 1
  {
    if !t.matches(itemEnv) then None
    else match RemoveFromSlots(t, 0, itemEnv, item)
      case Some(sub') => Some(t.(sub := sub'))
      case None => if item in t.items then Some(t.(items := RemoveFirst(t.items, item))) else None
  }

  /** remove over slots i .. 3: the slots after the first subtree that removes the item. */
  function RemoveFromSlots<T(==)>(t: QTree<T>, i: nat, itemEnv: Envelope, item: T): (r: Option<seq<Option<QTree<T>>>>)
    requires i <= |t.sub|
    decreases t, |t.sub| - i
  {
    if i == |t.sub| then None
    else if t.sub[i].None? then RemoveFromSlots(t, i + 1, itemEnv, item)
    else match TreeRemove(t.sub[i].value, itemEnv, item)
      case Some(c) => Some(t.sub[i := if Prunable(c) then None else Some(c)])
      case None => RemoveFromSlots(t, i + 1, itemEnv, item)
  }

  // ---------------------------------------------------------------------------
  // Properties of the queries

  /** The slot sums over a prefix depend only on the slots in that prefix. */
  lemma {:induction false} SlotsItemsSize<T>(t: QTree<T>, k: nat)
    requires k <= |t.sub|
    ensures |SlotsItems(t, k)| == SlotsSize(t, k)
    decreases t, k
  {
    if k > 0 {
      SlotsItemsSize(t, k - 1);
      if t.sub[k - 1].Some? {
        ItemsCountIsSize(t.sub[k - 1].value);
      }
    }
  }

  /** addAllItems appends exactly size() items. */
  lemma {:induction false} ItemsCountIsSize<T>(t: QTree<T>)
    ensures |AllItems(t)| == TreeSize(t)
    decreases t, |t.sub| + 1
  {
    SlotsItemsSize(t, |t.sub|);
  }

  lemma {:induction false} SlotsEmptyIffZero<T>(t: QTree<T>, k: nat)
    requires k <= |t.sub|
    ensures SlotsEmpty(t, k) <==> SlotsSize(t, k) == 0
    decreases t, k
  {
    if k > 0 {
      SlotsEmptyIffZero(t, k - 1);
      if t.sub[k - 1].Some? {
        EmptyIffSizeZero(t.sub[k - 1].value);
      }
    }
  }

  /** A subtree is empty exactly when it holds no item at all. */
  lemma {:induction false} EmptyIffSizeZero<T>(t: QTree<T>)
    ensures TreeIsEmpty(t) <==> TreeSize(t) == 0
    ensures TreeIsEmpty(t) <==> AllItems(t) == []
    decreases t, |t.sub| + 1
  {
    SlotsEmptyIffZero(t, |t.sub|);
    ItemsCountIsSize(t);
  }

  /** A prunable node is empty. */
  lemma PrunableIsEmpty<T>(t: QTree<T>)
    requires Prunable(t)
    ensures TreeIsEmpty(t) && TreeSize(t) == 0 && AllItems(t) == []
  {
    assert forall k :: 0 <= k <= |t.sub| ==> SlotsEmpty(t, k) && SlotsItems(t, k) == [] by {
      forall k | 0 <= k <= |t.sub| ensures SlotsEmpty(t, k) && SlotsItems(t, k) == [] {
        PrunableSlots(t, k);
      }
    }
    EmptyIffSizeZero(t);
  }

  lemma {:induction false} PrunableSlots<T>(t: QTree<T>, k: nat)
    requires Prunable(t) && k <= |t.sub|
    ensures SlotsEmpty(t, k) && SlotsItems(t, k) == []
  {
    if k > 0 {
      PrunableSlots(t, k - 1);
      assert t.sub[k - 1].None?;
    }
  }

  /** The greatest slot depth is the depth of some slot, and bounds every slot's depth. */
  lemma {:induction false} SlotsDepthIsMax<T>(t: QTree<T>, k: nat)
    requires k <= |t.sub|
    ensures forall i :: 0 <= i < k && t.sub[i].Some? ==> TreeDepth(t.sub[i].value) <= SlotsDepth(t, k)
    ensures SlotsDepth(t, k) == 0 || exists i :: 0 <= i < k && t.sub[i].Some? && TreeDepth(t.sub[i].value) == SlotsDepth(t, k)
    ensures SlotsDepth(t, k) == 0 <==> forall i :: 0 <= i < k ==> t.sub[i].None?
    decreases k
  {
    if k > 0 {
      SlotsDepthIsMax(t, k - 1);
      if t.sub[k - 1].Some? {
        assert TreeDepth(t.sub[k - 1].value) >= 1;
      }
    }
  }

  /** depth is 1 without children, and otherwise one more than the deepest child. */
  lemma DepthIsOneMoreThanDeepest<T>(t: QTree<T>)
    ensures !TreeHasChildren(t) ==> TreeDepth(t) == 1
    ensures TreeHasChildren(t) ==>
      (forall i :: 0 <= i < |t.sub| && t.sub[i].Some? ==> TreeDepth(t.sub[i].value) < TreeDepth(t)) &&
      (exists i :: 0 <= i < |t.sub| && t.sub[i].Some? && TreeDepth(t) == TreeDepth(t.sub[i].value) + 1)
  {
    SlotsDepthIsMax(t, |t.sub|);
  }

  // ---------------------------------------------------------------------------
  // Properties of remove

  /** The items held in one slot. */
  function SlotItems<T>(o: Option<QTree<T>>): seq<T>
  {
    if o.Some? then AllItems(o.value) else []
  }

  /** Replacing slot i leaves the items of the slots before i unchanged. */
  lemma {:induction false} SlotsItemsBefore<T>(t: QTree<T>, t': QTree<T>, i: nat, k: nat)
    requires i < |t.sub| == |t'.sub| && k <= i
    requires forall j :: 0 <= j < |t.sub| && j != i ==> t'.sub[j] == t.sub[j]
    ensures SlotsItems(t', k) == SlotsItems(t, k)
    decreases k
  {
    if k > 0 {
      SlotsItemsBefore(t, t', i, k - 1);
    }
  }

  /** Replacing slot i changes the items of every slot prefix reaching past i by that slot's items. */
  lemma {:induction false} SlotsItemsReplace<T>(t: QTree<T>, t': QTree<T>, i: nat, k: nat)
    requires i < k <= |t.sub| == |t'.sub|
    requires forall j :: 0 <= j < |t.sub| && j != i ==> t'.sub[j] == t.sub[j]
    ensures multiset(SlotsItems(t', k)) + multiset(SlotItems(t.sub[i])) ==
      multiset(SlotsItems(t, k)) + multiset(SlotItems(t'.sub[i]))
    decreases k
  {
    var o, o' := SlotItems(t.sub[i]), SlotItems(t'.sub[i]);
    if k - 1 == i {
      SlotsItemsBefore(t, t', i, i);
      assert SlotsItems(t, k) == SlotsItems(t, i) + o;
      assert SlotsItems(t', k) == SlotsItems(t, i) + o';
      MultisetSwap(multiset(SlotsItems(t, i)), multiset(o), multiset(o'));
    } else {
      SlotsItemsReplace(t, t', i, k - 1);
      var x := SlotItems(t.sub[k - 1]);
      assert SlotsItems(t, k) == SlotsItems(t, k - 1) + x;
      assert SlotsItems(t', k) == SlotsItems(t', k - 1) + x;
      MultisetExtend(multiset(SlotsItems(t', k - 1)), multiset(SlotsItems(t, k - 1)), multiset(o), multiset(o'), multiset(x));
    }
  }

  lemma MultisetSwap<T>(p: multiset<T>, o: multiset<T>, o': multiset<T>)
    ensures (p + o') + o == (p + o) + o'
  {
  }

  lemma MultisetExtend<T>(a': multiset<T>, a: multiset<T>, o: multiset<T>, o': multiset<T>, x: multiset<T>)
    requires a' + o == a + o'
    ensures (a' + x) + o == (a + x) + o'
  {
    forall e ensures ((a' + x) + o)[e] == ((a + x) + o')[e] {
      assert (a' + o)[e] == (a + o')[e];
    }
  }

  /** The slot items depend on the slots alone. */
  lemma {:induction false} SlotsItemsOfSlots<T>(t: QTree<T>, t': QTree<T>, k: nat)
    requires t.sub == t'.sub && k <= |t.sub|
    ensures SlotsItems(t, k) == SlotsItems(t', k)
    decreases k
  {
    if k > 0 {
      SlotsItemsOfSlots(t, t', k - 1);
    }
  }

  lemma MultisetCancel<T>(a: multiset<T>, b: multiset<T>, c: multiset<T>, d: multiset<T>)
    requires a + (c + d) == b + c
    ensures a + d == b
  {
    forall x ensures (a + d)[x] == b[x] {
      assert (a + (c + d))[x] == (b + c)[x];
    }
  }

  /** A successful remove takes exactly one occurrence of the item out of the subtree. */
  lemma {:induction false} RemoveTakesOne<T>(t: QTree<T>, itemEnv: Envelope, item: T)
    requires TreeRemove(t, itemEnv, item).Some?
    ensures item in multiset(AllItems(t))
    ensures multiset(AllItems(TreeRemove(t, itemEnv, item).value)) + multiset{item} == multiset(AllItems(t))
    decreases t, |t.sub| + 1, 1
  {
    if RemoveFromSlots(t, 0, itemEnv, item).Some? {
      RemoveInSlotsTakesOne(t, itemEnv, item);
    } else {
      RemoveInItemsTakesOne(t, itemEnv, item);
    }
  }

  /**
   * A successful remove keeps the node: its search test matched, the test and
   * the four slots stay, and its own items are either kept (a subtree removed
   * the item) or lose the first occurrence of the item.
   */
  lemma RemoveKeepsNode<T>(t: QTree<T>, itemEnv: Envelope, item: T)
    requires TreeRemove(t, itemEnv, item).Some?
    ensures t.matches(itemEnv)
    ensures TreeRemove(t, itemEnv, item).value.matches == t.matches
    ensures |TreeRemove(t, itemEnv, item).value.sub| == |t.sub|
    ensures TreeRemove(t, itemEnv, item).value.items == t.items ||
      (item in t.items && TreeRemove(t, itemEnv, item).value.items == RemoveFirst(t.items, item))
  {
    if RemoveFromSlots(t, 0, itemEnv, item).Some? {
      RemoveFromSlotsTakesOne(t, 0, itemEnv, item);
    }
  }

  /** The case of RemoveTakesOne where a subtree removes the item. */
  lemma {:induction false} RemoveInSlotsTakesOne<T>(t: QTree<T>, itemEnv: Envelope, item: T)
    requires t.matches(itemEnv) && RemoveFromSlots(t, 0, itemEnv, item).Some?
    ensures TreeRemove(t, itemEnv, item) == Some(t.(sub := RemoveFromSlots(t, 0, itemEnv, item).value))
    ensures item in multiset(AllItems(t))
    ensures multiset(AllItems(TreeRemove(t, itemEnv, item).value)) + multiset{item} == multiset(AllItems(t))
    decreases t, |t.sub| + 1, 0
  {
    RemoveFromSlotsTakesOne(t, 0, itemEnv, item);
    var t' := t.(sub := RemoveFromSlots(t, 0, itemEnv, item).value);
    assert AllItems(t') == t.items + SlotsItems(t', |t.sub|);
  }

  /** The case of RemoveTakesOne where the item is removed from this node's own items. */
  lemma RemoveInItemsTakesOne<T>(t: QTree<T>, itemEnv: Envelope, item: T)
    requires TreeRemove(t, itemEnv, item).Some? && RemoveFromSlots(t, 0, itemEnv, item).None?
    ensures TreeRemove(t, itemEnv, item) == Some(t.(items := RemoveFirst(t.items, item)))
    ensures item in multiset(AllItems(t))
    ensures multiset(AllItems(TreeRemove(t, itemEnv, item).value)) + multiset{item} == multiset(AllItems(t))
  {
    var t' := t.(items := RemoveFirst(t.items, item));
    SlotsItemsOfSlots(t, t', |t.sub|);
    assert AllItems(t') == RemoveFirst(t.items, item) + SlotsItems(t, |t.sub|);
  }

  lemma {:induction false} RemoveFromSlotsTakesOne<T>(t: QTree<T>, i: nat, itemEnv: Envelope, item: T)
    requires i <= |t.sub| && RemoveFromSlots(t, i, itemEnv, item).Some?
    ensures |RemoveFromSlots(t, i, itemEnv, item).value| == |t.sub|
    ensures item in multiset(SlotsItems(t, |t.sub|))
    ensures multiset(SlotsItems(t.(sub := RemoveFromSlots(t, i, itemEnv, item).value), |t.sub|)) + multiset{item} ==
      multiset(SlotsItems(t, |t.sub|))
    decreases t, |t.sub| - i, 0
  {
    if t.sub[i].None? {
      RemoveFromSlotsTakesOne(t, i + 1, itemEnv, item);
    } else {
      var child := t.sub[i].value;
      match TreeRemove(child, itemEnv, item)
      case Some(c) =>
        RemoveTakesOne(child, itemEnv, item);
        var o := if Prunable(c) then None else Some(c);
        if Prunable(c) {
          PrunableIsEmpty(c);
        }
        var t' := t.(sub := t.sub[i := o]);
        assert RemoveFromSlots(t, i, itemEnv, item).value == t'.sub;
        var mc := multiset(AllItems(c));
        assert multiset(SlotItems(t'.sub[i])) == mc;
        assert multiset(SlotItems(t.sub[i])) == mc + multiset{item};
        SlotsItemsReplace(t, t', i, |t.sub|);
        var ms, ms' := multiset(SlotsItems(t, |t.sub|)), multiset(SlotsItems(t', |t.sub|));
        assert ms' + (mc + multiset{item}) == ms + mc;
        MultisetCancel(ms', ms, mc, multiset{item});
      case None =>
        RemoveFromSlotsTakesOne(t, i + 1, itemEnv, item);
    }
  }

  /** remove returns true exactly when the size drops by one; otherwise nothing changes. */
  lemma RemoveShrinksByOne<T>(t: QTree<T>, itemEnv: Envelope, item: T)
    ensures TreeRemove(t, itemEnv, item).Some? ==>
      TreeSize(TreeRemove(t, itemEnv, item).value) == TreeSize(t) - 1 && item in AllItems(t)
    ensures !t.matches(itemEnv) ==> TreeRemove(t, itemEnv, item).None?
    ensures item !in AllItems(t) ==> TreeRemove(t, itemEnv, item).None?
  {
    if TreeRemove(t, itemEnv, item).Some? {
      var t' := TreeRemove(t, itemEnv, item).value;
      RemoveTakesOne(t, itemEnv, item);
      ItemsCountIsSize(t);
      ItemsCountIsSize(t');
      assert |multiset(AllItems(t'))| + 1 == |multiset(AllItems(t))|;
    }
  }

  // ---------------------------------------------------------------------------
  // The node

  /**
   * A quadtree node: its items, its four subnode slots (2 | 3 over 0 | 1,
   * null for an absent subnode) and its isSearchMatch test. `model` is the
   * abstract subtree below the node and Repr the objects it is made of.
   */
  class QuadNode<T(==)> {
    var items: seq<T>
    const subnode: array<QuadNode?<T>>
    const matches: Envelope -> bool
    ghost var model: QTree<T>
    ghost var Repr: set<object>
    /** The objects of the subtree in each slot. */
    ghost var slotRepr: seq<set<object>>

    ghost predicate Valid()
      reads this, Repr
      decreases Repr
    {
      subnode in Repr && Shape() &&
      forall i :: 0 <= i < 4 && subnode[i] != null ==>
        subnode[i].Repr == slotRepr[i] && subnode[i].Valid() && subnode[i].model == model.sub[i].value
    }

    /** The node's own part of Valid: model, slots and the disjoint footprints of the subtrees. */
    ghost predicate Shape()
      reads this, subnode
    {
      this in Repr && subnode in Repr && subnode.Length == 4 && |slotRepr| == 4 &&
      model.matches == matches && model.items == items && |model.sub| == 4 &&
      (forall i :: 0 <= i < 4 ==> (subnode[i] == null <==> model.sub[i].None?)) &&
      (forall i :: 0 <= i < 4 ==> slotRepr[i] <= Repr && this !in slotRepr[i] && subnode !in slotRepr[i]) &&
      (forall i :: 0 <= i < 4 && subnode[i] != null ==> subnode[i] in slotRepr[i]) &&
      (forall i, j :: 0 <= i < j < 4 ==> slotRepr[i] !! slotRepr[j])
    }

    /** A node with no items and four null slots. */
    constructor(matches: Envelope -> bool)
      ensures Valid() && fresh(Repr)
      ensures model == QNode(matches, [], [None, None, None, None])
    {
      items := [];
      subnode := new QuadNode?<T>[4](_ => null);
      this.matches := matches;
      model := QNode(matches, [], [None, None, None, None]);
      Repr := {this, subnode};
      slotRepr := [{}, {}, {}, {}];
    }

    /**
     * The subnode slot assignment `subnode[i] = node` that the Node subclass
     * performs when it builds the tree; node must be a separate subtree.
     */
    method SetSubnode(i: nat, node: QuadNode<T>)
      requires Valid() && node.Valid() && i < 4 && node.Repr !! Repr
      modifies this, subnode
      ensures Valid() && Repr == old(Repr) + node.Repr
      ensures model == old(model).(sub := old(model).sub[i := Some(node.model)])
    {
      subnode[i] := node;
      model := model.(sub := model.sub[i := Some(node.model)]);
      Repr := Repr + node.Repr;
      slotRepr := slotRepr[i := node.Repr];
    }

    /** add: append an item to this node's items. */
    method Add(item: T)
      requires Valid()
      modifies this
      ensures Valid() && Repr == old(Repr)
      ensures model == old(model).(items := old(model).items + [item])
    {
      items := items + [item];
      model := model.(items := items);
    }

    /** hasChildren: some slot is non-null. */
    method HasChildren() returns (b: bool)
      requires Valid()
      ensures b == TreeHasChildren(model)
    {
      for i := 0 to 4
        invariant forall j :: 0 <= j < i ==> model.sub[j].None?
      {
        if subnode[i] != null {
          return true;
        }
      }
      return false;
    }

    /** isPrunable: neither children nor items. */
    method IsPrunable() returns (b: bool)
      requires Valid()
      ensures b == Prunable(model)
    {
      var children := HasChildren();
      b := !(children || |items| > 0);
    }

    /** isEmpty: no items here, and every non-null subnode is empty. */
    method IsEmpty() returns (b: bool)
      requires Valid()
      ensures b == TreeIsEmpty(model)
      decreases Repr
    {
      b := true;
      if |items| > 0 {
        b := false;
      } else {
        var i := 0;
        while i < 4
          invariant 0 <= i <= 4 && b && SlotsEmpty(model, i)
        {
          if subnode[i] != null {
            var e := subnode[i].IsEmpty();
            if !e {
              b := false;
              SlotsEmptyStays(model, i + 1);
              break;
            }
          }
          i := i + 1;
        }
      }
    }

    /** addAllItems: the result list extended by this node's items, then each subnode's in slot order. */
    method AddAllItems(resultItems: seq<T>) returns (r: seq<T>)
      requires Valid()
      ensures r == resultItems + AllItems(model)
      decreases Repr
    {
      r := resultItems + items;
      for i := 0 to 4
        invariant r == resultItems + items + SlotsItems(model, i)
      {
        if subnode[i] != null {
          r := subnode[i].AddAllItems(r);
        }
      }
    }

    /** depth: one more than the greatest subnode depth. */
    method Depth() returns (d: nat)
      requires Valid()
      ensures d == TreeDepth(model)
      decreases Repr
    {
      var maxSubDepth := 0;
      for i := 0 to 4
        invariant maxSubDepth == SlotsDepth(model, i)
      {
        if subnode[i] != null {
          var sqd := subnode[i].Depth();
          if sqd > maxSubDepth {
            maxSubDepth := sqd;
          }
        }
      }
      return maxSubDepth + 1;
    }

    /** size: the item count of the subtree. */
    method Size() returns (n: nat)
      requires Valid()
      ensures n == TreeSize(model)
      decreases Repr
    {
      var subSize := 0;
      for i := 0 to 4
        invariant subSize == SlotsSize(model, i)
      {
        if subnode[i] != null {
          var s := subnode[i].Size();
          subSize := subSize + s;
        }
      }
      return subSize + |items|;
    }

    /**
     * remove: skip the subtree when isSearchMatch fails; otherwise try the
     * subnodes in slot order, stopping at the first that removes the item,
     * and otherwise remove the item from this node's items.
     */
    method Remove(itemEnv: Envelope, item: T) returns (found: bool)
      requires Valid()
      modifies Repr
      ensures Valid() && Repr == old(Repr)
      ensures found == TreeRemove(old(model), itemEnv, item).Some?
      ensures found ==> model == TreeRemove(old(model), itemEnv, item).value
      ensures !found ==> model == old(model)
      decreases Repr, 1
    {
      if !matches(itemEnv) {
        return false;
      }
      ghost var m0 := model;
      found := false;
      var i := 0;
      while i < 4
        invariant 0 <= i <= 4 && !found
        invariant Valid() && Repr == old(Repr) && model == m0
        invariant RemoveFromSlots(m0, 0, itemEnv, item) == RemoveFromSlots(m0, i, itemEnv, item)
      {
        if subnode[i] != null {
          found := RemoveFromSubnode(i, itemEnv, item);
          if found {
            break;
          }
        }
        i := i + 1;
      }
      if found {
        return;
      }
      found := item in items;
      items := RemoveFirst(items, item);
      model := m0.(items := items);
    }

    /** One step of remove's slot loop: remove from subnode i, nulling the slot if it became prunable. */
    method RemoveFromSubnode(i: nat, itemEnv: Envelope, item: T) returns (found: bool)
      requires Valid() && i < 4 && subnode[i] != null
      modifies Repr
      ensures Valid() && Repr == old(Repr)
      ensures found == TreeRemove(old(model).sub[i].value, itemEnv, item).Some?
      ensures found ==> var c := TreeRemove(old(model).sub[i].value, itemEnv, item).value;
        model == old(model).(sub := old(model).sub[i := if Prunable(c) then None else Some(c)])
      ensures !found ==> model == old(model)
      decreases Repr, 0
    {
      var child := subnode[i];
      ghost var m0 := model;
      ghost var r0 := slotRepr;
      assert child.Repr == r0[i] && child.Valid();
      found := child.Remove(itemEnv, item);
      assert slotRepr == r0 && child.Repr == r0[i] && child.Valid();
      assert Shape();
      assert forall j :: 0 <= j < 4 && j != i && subnode[j] != null ==>
        subnode[j].Repr == slotRepr[j] && subnode[j].Valid() && subnode[j].model == model.sub[j].value;
      if found {
        model := m0.(sub := m0.sub[i := Some(child.model)]);
        PruneSubnode(i);
      }
    }

    /** Trim subnode i when it has become prunable. */
    method PruneSubnode(i: nat)
      requires Valid() && i < 4 && subnode[i] != null
      modifies this, subnode
      ensures Valid() && Repr == old(Repr)
      ensures model == old(model).(sub := old(model).sub[i := if Prunable(old(model).sub[i].value) then None else old(model).sub[i]])
    {
      var prunable := subnode[i].IsPrunable();
      if prunable {
        subnode[i] := null;
        model := model.(sub := model.sub[i := None]);
      }
    }
  }

  /** Once a slot prefix holds a non-empty subtree, no longer prefix is all empty. */
  lemma {:induction false} SlotsEmptyStays<T>(t: QTree<T>, k: nat)
    requires 0 < k <= |t.sub| && t.sub[k - 1].Some? && !TreeIsEmpty(t.sub[k - 1].value)
    ensures forall n :: k <= n <= |t.sub| ==> !SlotsEmpty(t, n)
  {
    forall n | k <= n <= |t.sub| ensures !SlotsEmpty(t, n) {
      SlotsEmptyMonotone(t, k, n);
    }
  }

  lemma {:induction false} SlotsEmptyMonotone<T>(t: QTree<T>, k: nat, n: nat)
    requires k <= n <= |t.sub|
    ensures SlotsEmpty(t, n) ==> SlotsEmpty(t, k)
    decreases n
  {
    if n > k {
      SlotsEmptyMonotone(t, k, n - 1);
    }
  }
}
