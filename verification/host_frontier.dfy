/** The host frontier of a fiber: the nearest fibers below it (or the fiber
    itself) that own a host instance, left to right.

    Both the completion pass (`appendAllChildren`, completeWork.ts:98-124) and
    the commit pass (`appendPlacementNodeIntoContainer`, commitWork.ts:107-124)
    append exactly this frontier, so it is defined once here, recursively, as
    the reference the two iterative walks are proved against. */
module HostFrontier {
  import opened Options
  import opened Fibers
  import opened Seqs

  /** A host fiber is its own frontier; any other fiber contributes the
      frontiers of its children, left to right. */
  function HostNodes(a: Arena, x: Id): (r: seq<Id>)
    requires WellFormed(a) && x < |a|
    ensures forall k | 0 <= k < |r| :: x <= r[k] < |a| && IsHost(a[r[k]].tag)
    decreases |a| - x, 0
  {
    if IsHost(a[x].tag) then [x] else HostNodesChain(a, a[x].child)
  }

  /** The frontiers of the sibling chain starting at `c`, concatenated. */
  function HostNodesChain(a: Arena, c: Option<Id>): (r: seq<Id>)
    requires WellFormed(a) && InRange(a, c)
    ensures forall k | 0 <= k < |r| :: c.Some? && c.value <= r[k] < |a| && IsHost(a[r[k]].tag)
    decreases if c.Some? then |a| - c.value else 0, 1
  {
    if c.None? then [] else HostNodes(a, c.value) + HostNodesChain(a, a[c.value].sibling)
  }

  /** The `appendInitialChild(parent, node.stateNode)` calls for `ids`, in order. */
  function InitialAppends(a: Arena, parent: Instance, ids: seq<Id>): (r: seq<HostOp>)
    requires forall k | 0 <= k < |ids| :: ids[k] < |a|
    ensures |r| == |ids|
    ensures forall k | 0 <= k < |ids| :: r[k] == AppendInitialChild(parent, a[ids[k]].stateNode)
  {
    seq(|ids|, k requires 0 <= k < |ids| => AppendInitialChild(parent, a[ids[k]].stateNode))
  }

  /** The `appendChildToContainer(node.stateNode, container)` calls for `ids`, in order. */
  function ContainerAppends(a: Arena, container: Instance, ids: seq<Id>): (r: seq<HostOp>)
    requires forall k | 0 <= k < |ids| :: ids[k] < |a|
    ensures |r| == |ids|
    ensures forall k | 0 <= k < |ids| :: r[k] == AppendChildToContainer(a[ids[k]].stateNode, container)
  {
    seq(|ids|, k requires 0 <= k < |ids| => AppendChildToContainer(a[ids[k]].stateNode, container))
  }

  /** Every fiber strictly between `p` (inclusive) and `top` (exclusive) on the
      `return` chain is a non-host fiber, and the chain reaches `top`. */
  predicate ComponentsUpTo(a: Arena, p: Id, top: Id)
    requires WellFormed(a) && p < |a|
    decreases p
  {
    p == top || (!IsHost(a[p].tag) && a[p].ret.Some? && ComponentsUpTo(a, a[p].ret.value, top))
  }

  /** `y` is one of the nearest host fibers strictly below `top`: it is a host
      fiber, and every fiber between it and `top` is not. */
  predicate NearestHostBelow(a: Arena, y: Id, top: Id)
    requires WellFormed(a) && y < |a|
  {
    IsHost(a[y].tag) && y != top && a[y].ret.Some? && ComponentsUpTo(a, a[y].ret.value, top)
  }

  lemma {:induction false} ComponentsUpToExtend(a: Arena, p: Id, m: Id, top: Id)
    requires WellFormed(a) && p < |a| && m < |a|
    requires ComponentsUpTo(a, p, m) && !IsHost(a[m].tag) && a[m].ret == Some(top)
    ensures ComponentsUpTo(a, p, top)
    decreases p
  {
    if p != m {
      ComponentsUpToExtend(a, a[p].ret.value, m, top);
    }
  }

  /** The frontier of `m`, a child of `top`, holds only nearest host fibers
      below `top`. */
  lemma {:induction false} HostNodesAreNearest(a: Arena, m: Id, top: Id)
    requires ReturnsConsistent(a) && m < |a| && a[m].ret == Some(top)
    ensures forall y | y in HostNodes(a, m) :: NearestHostBelow(a, y, top)
    decreases |a| - m, 0
  {
    if !IsHost(a[m].tag) {
      assert ReturnOk(a, m);
      HostNodesChainAreNearest(a, a[m].child, m);
      forall y | y in HostNodes(a, m)
        ensures NearestHostBelow(a, y, top)
      {
        assert NearestHostBelow(a, y, m);
        ComponentsUpToExtend(a, a[y].ret.value, m, top);
      }
    }
  }

  /** The frontier of a chain of children of `top` holds only nearest host
      fibers below `top`. */
  lemma {:induction false} HostNodesChainAreNearest(a: Arena, c: Option<Id>, top: Id)
    requires ReturnsConsistent(a) && InRange(a, c)
    requires c.Some? ==> a[c.value].ret == Some(top)
    ensures forall y | y in HostNodesChain(a, c) :: NearestHostBelow(a, y, top)
    decreases if c.Some? then |a| - c.value else 0, 1
  {
    if c.Some? {
      assert ReturnOk(a, c.value);
      HostNodesAreNearest(a, c.value, top);
      HostNodesChainAreNearest(a, a[c.value].sibling, top);
    }
  }

  lemma {:induction false} HostNodesUnder(a: Arena, m: Id)
    requires ReturnsConsistent(a) && m < |a|
    ensures forall y | y in HostNodes(a, m) :: Under(a, y, m)
    decreases |a| - m, 0
  {
    if !IsHost(a[m].tag) {
      assert ReturnOk(a, m);
      HostNodesChainUnder(a, a[m].child, m);
    }
  }

  lemma {:induction false} HostNodesChainUnder(a: Arena, c: Option<Id>, top: Id)
    requires ReturnsConsistent(a) && InRange(a, c)
    requires c.Some? ==> a[c.value].ret == Some(top)
    ensures forall y | y in HostNodesChain(a, c) :: Under(a, y, top)
    decreases if c.Some? then |a| - c.value else 0, 1
  {
    if c.Some? {
      var m := c.value;
      assert ReturnOk(a, m);
      HostNodesUnder(a, m);
      forall y | y in HostNodes(a, m)
        ensures Under(a, y, top)
      {
        UnderExtend(a, y, m, top);
      }
      HostNodesChainUnder(a, a[m].sibling, top);
    }
  }

  lemma {:induction false} UnderExtend(a: Arena, y: Id, m: Id, top: Id)
    requires WellFormed(a) && y < |a| && m < |a|
    requires Under(a, y, m) && a[m].ret == Some(top)
    ensures Under(a, y, top)
    decreases y
  {
    if y != m {
      UnderExtend(a, a[y].ret.value, m, top);
    }
  }

  /** A fiber below `c` is not in the frontier of any later sibling of `c`. */
  lemma {:induction false} NotInLaterSiblings(a: Arena, y: Id, c: Id, d: Option<Id>)
    requires ReturnsConsistent(a) && y < |a| && c < |a| && InRange(a, d)
    requires a[c].ret.Some? && Under(a, y, c)
    requires d.Some? ==> c < d.value && a[d.value].ret == a[c].ret
    ensures y !in HostNodesChain(a, d)
    decreases if d.Some? then |a| - d.value else 0
  {
    if d.Some? {
      var s := d.value;
      assert ReturnOk(a, s);
      if y in HostNodes(a, s) {
        HostNodesUnder(a, s);
        SiblingSubtreesDisjoint(a, y, c, s);
        assert false;
      }
      NotInLaterSiblings(a, y, c, a[s].sibling);
    }
  }

  /** Each fiber of the frontier occurs in it once. */
  lemma {:induction false} HostNodesNoDuplicates(a: Arena, m: Id)
    requires ReturnsConsistent(a) && m < |a|
    ensures NoDuplicates(HostNodes(a, m))
    decreases |a| - m, 0
  {
    if !IsHost(a[m].tag) {
      assert ReturnOk(a, m);
      HostNodesChainNoDuplicates(a, a[m].child);
    }
  }

  lemma {:induction false} HostNodesChainNoDuplicates(a: Arena, c: Option<Id>)
    requires ReturnsConsistent(a) && InRange(a, c)
    requires c.Some? ==> a[c.value].ret.Some?
    ensures NoDuplicates(HostNodesChain(a, c))
    decreases if c.Some? then |a| - c.value else 0, 1
  {
    if c.Some? {
      var m := c.value;
      assert ReturnOk(a, m);
      var xs := HostNodes(a, m);
      var ys := HostNodesChain(a, a[m].sibling);
      HostNodesNoDuplicates(a, m);
      HostNodesChainNoDuplicates(a, a[m].sibling);
      HostNodesUnder(a, m);
      forall i, j | 0 <= i < |xs| && 0 <= j < |ys|
        ensures xs[i] != ys[j]
      {
        assert xs[i] in xs;
        NotInLaterSiblings(a, xs[i], m, a[m].sibling);
        assert ys[j] in ys;
      }
      NoDuplicatesConcat(xs, ys);
    }
  }

  /** `p` is a walk along the links from the chain head `c`: it starts at
      `c`, and each step goes to the next sibling or, from a non-host fiber
      only, down to the first child. */
  predicate LinkPath(a: Arena, c: Option<Id>, p: seq<Id>) {
    && |p| > 0 && c == Some(p[0])
    && (forall k | 0 <= k < |p| :: p[k] < |a|)
    && forall k | 0 <= k < |p| - 1 ::
         a[p[k]].sibling == Some(p[k + 1])
         || (!IsHost(a[p[k]].tag) && a[p[k]].child == Some(p[k + 1]))
  }

  /** A host fiber reached from the chain head `c` by such a walk is in the
      frontier of the chain. */
  lemma {:induction false} LinkPathReachesFrontier(a: Arena, c: Option<Id>, p: seq<Id>)
    requires WellFormed(a) && LinkPath(a, c, p) && IsHost(a[p[|p| - 1]].tag)
    ensures p[|p| - 1] in HostNodesChain(a, c)
    decreases |p|
  {
    var x := p[0];
    assert LinksOk(a, x);
    if |p| == 1 {
      assert HostNodes(a, x) == [x];
    } else {
      var p' := p[1..];
      assert p'[|p'| - 1] == p[|p| - 1];
      assert forall k | 0 <= k < |p'| :: p'[k] == p[k + 1];
      if a[x].sibling == Some(p[1]) {
        assert LinkPath(a, a[x].sibling, p');
        LinkPathReachesFrontier(a, a[x].sibling, p');
      } else {
        assert LinkPath(a, a[x].child, p');
        LinkPathReachesFrontier(a, a[x].child, p');
        assert HostNodes(a, x) == HostNodesChain(a, a[x].child);
      }
    }
  }

  /** The frontier below `top` (the frontiers of its children) is exactly
      the nearest host fibers below `top`: a sequence of distinct nearest
      host fibers, which holds every host fiber that a walk from the first
      child reaches without descending below a host fiber. */
  lemma ChildFrontierIsNearestHosts(a: Arena, top: Id)
    requires ReturnsConsistent(a) && top < |a|
    ensures NoDuplicates(HostNodesChain(a, a[top].child))
    ensures forall y | y in HostNodesChain(a, a[top].child) :: NearestHostBelow(a, y, top)
    ensures forall p | LinkPath(a, a[top].child, p) && IsHost(a[p[|p| - 1]].tag) ::
              p[|p| - 1] in HostNodesChain(a, a[top].child)
  {
    assert ReturnOk(a, top);
    HostNodesChainAreNearest(a, a[top].child, top);
    HostNodesChainNoDuplicates(a, a[top].child);
    forall p | LinkPath(a, a[top].child, p) && IsHost(a[p[|p| - 1]].tag)
      ensures p[|p| - 1] in HostNodesChain(a, a[top].child)
    {
      LinkPathReachesFrontier(a, a[top].child, p);
    }
  }
}
