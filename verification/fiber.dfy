/** The fiber tree as an arena.

    A fiber is one position of the UI tree. Its `child`, `sibling`, `return`
    and `alternate` pointers are indices into one arena that holds both tree
    buffers (the committed tree and the work-in-progress tree). The host
    environment's objects (DOM elements, text nodes, the root container) are
    opaque instance ids, and every call into the host is recorded as a
    `HostOp` in an append-only log. */
module Fibers {
  import opened Options
  import opened FiberFlags

  type Id = nat

  /** An opaque host object: an element, a text node or a container. */
  type Instance = nat

  /** An opaque props object; equal handles are the same JavaScript object. */
  type PropsRef = nat

  /** The work tags the reconciler dispatches on; `UnknownTag` stands for any
      tag no pass handles. */
  datatype Tag =
    | FunctionComponent
    | HostRoot
    | HostComponent
    | HostText
    | Fragment
    | UnknownTag(code: int)

  /** Fibers that own a host instance of their own. */
  predicate IsHost(t: Tag) {
    t.HostComponent? || t.HostText?
  }

  /** What `stateNode` refers to: nothing yet, a host instance, or (for the
      HostRoot fiber) the root node, of which only its `container` is read. */
  datatype StateNode =
    | NoStateNode
    | HostInstance(inst: Instance)
    | RootNode(container: Instance)

  /** The value of a text fiber's `content`: a string, or a number such as
      the `count` in `<div>{count}</div>`. Two contents are `!==` exactly
      when they differ here, so `5` and `'5'` are different contents. */
  datatype TextContent = TextStr(s: string) | TextNum(n: int)

  /** A props object: its identity, and its `content` property (`None` is
      `undefined`), the only property the core reads. */
  datatype Props = Props(ref: PropsRef, content: Option<TextContent>)

  datatype Fiber = Fiber(
    tag: Tag,
    elementType: string,
    pendingProps: Props,
    memoizedProps: Props,
    stateNode: StateNode,
    child: Option<Id>,
    sibling: Option<Id>,
    ret: Option<Id>,
    alternate: Option<Id>,
    flags: Flags,
    subtreeFlags: Flags
  )

  type Arena = seq<Fiber>

  /** The calls the core makes into the host environment. */
  datatype HostOp =
    | CreateInstance(inst: Instance, elementType: string, props: Props)
    | CreateTextInstance(inst: Instance, text: Option<TextContent>)
    | AppendInitialChild(parent: Instance, child: StateNode)
    | AppendChildToContainer(child: StateNode, container: Instance)

  predicate InRange(a: Arena, p: Option<Id>) {
    p.Some? ==> p.value < |a|
  }

  /** The pointers of fiber `i` stay inside the arena; a child or a next
      sibling comes later in the arena and a parent earlier. The index order
      is a numbering of the model's choosing: a topological order of the
      child, sibling and return links, which exists whenever those links
      have no cycle. Only the HostRoot fiber holds the root node. */
  predicate LinksOk(a: Arena, i: Id)
    requires i < |a|
  {
    var f := a[i];
    && (f.child.Some? ==> i < f.child.value < |a|)
    && (f.sibling.Some? ==> i < f.sibling.value < |a|)
    && (f.ret.Some? ==> f.ret.value < i)
    && InRange(a, f.alternate)
    && (f.tag.HostRoot? <==> f.stateNode.RootNode?)
  }

  predicate WellFormed(a: Arena) {
    forall i {:trigger a[i]} | 0 <= i < |a| :: LinksOk(a, i)
  }

  /** The children of fiber `i` point back at it, and a next sibling has the
      same parent. */
  predicate ReturnOk(a: Arena, i: Id)
    requires WellFormed(a) && i < |a|
  {
    && (a[i].child.Some? ==> a[a[i].child.value].ret == Some(i))
    && (a[i].sibling.Some? ==> a[a[i].sibling.value].ret == a[i].ret)
  }

  /** The `return` pointers agree with the `child`/`sibling` pointers, as the
      render phase leaves them when it creates each child with its parent as
      `return`. */
  predicate ReturnsConsistent(a: Arena) {
    WellFormed(a) && forall i {:trigger ReturnOk(a, i)} | 0 <= i < |a| :: ReturnOk(a, i)
  }

  /** `b` differs from `a` at most in the `flags` field of its fibers. */
  predicate SameShape(a: Arena, b: Arena) {
    |a| == |b| && forall i | 0 <= i < |a| :: b[i] == a[i].(flags := b[i].flags)
  }

  /** `r` has the same pointers and tags as `a`, and a root node exactly
      where `a` has one; it may differ in flags, props and host instances. */
  predicate SameLinks(a: Arena, r: Arena) {
    && |r| == |a|
    && forall i | 0 <= i < |a| ::
         && r[i].tag == a[i].tag
         && r[i].child == a[i].child && r[i].sibling == a[i].sibling
         && r[i].ret == a[i].ret && r[i].alternate == a[i].alternate
         && r[i].stateNode.RootNode? == a[i].stateNode.RootNode?
  }

  /** Changing anything but the pointers keeps an arena well formed and its
      `return` pointers consistent. */
  lemma SameLinksKeepShape(a: Arena, r: Arena)
    requires WellFormed(a) && SameLinks(a, r)
    ensures WellFormed(r)
    ensures ReturnsConsistent(a) ==> ReturnsConsistent(r)
  {
    forall i | 0 <= i < |r| ensures LinksOk(r, i) {
      assert LinksOk(a, i);
    }
    if ReturnsConsistent(a) {
      forall i | 0 <= i < |r| ensures ReturnOk(r, i) {
        assert ReturnOk(a, i);
      }
    }
  }

  /** Changing only flags keeps an arena well formed and consistent. */
  lemma SameShapeKeepsShape(a: Arena, b: Arena)
    requires WellFormed(a) && SameShape(a, b)
    ensures WellFormed(b)
    ensures ReturnsConsistent(a) ==> ReturnsConsistent(b)
  {
    assert SameLinks(a, b);
    SameLinksKeepShape(a, b);
  }

  /** The sibling chain starting at `c`: the children of a fiber, left to
      right, when `c` is its `child`. */
  function Chain(a: Arena, c: Option<Id>): (r: seq<Id>)
    requires WellFormed(a) && InRange(a, c)
    ensures forall k | 0 <= k < |r| :: c.Some? && c.value <= r[k] < |a|
    decreases if c.Some? then |a| - c.value else 0
  {
    if c.None? then [] else [c.value] + Chain(a, a[c.value].sibling)
  }

  /** The `return` chain starting at `p`, nearest first. */
  function Ancestors(a: Arena, p: Option<Id>): (r: seq<Id>)
    requires WellFormed(a) && InRange(a, p)
    ensures forall k | 0 <= k < |r| :: p.Some? && r[k] <= p.value
    ensures |r| > 0 ==> p == Some(r[0]) && a[r[|r| - 1]].ret.None?
    decreases if p.Some? then p.value + 1 else 0
  {
    if p.None? then [] else [p.value] + Ancestors(a, a[p.value].ret)
  }

  /** `x` is `top` or lies below it: following `return` from `x` reaches `top`. */
  predicate Under(a: Arena, x: Id, top: Id)
    requires WellFormed(a) && x < |a|
    decreases x
  {
    x == top || (a[x].ret.Some? && Under(a, a[x].ret.value, top))
  }

  lemma {:induction false} UnderIsLater(a: Arena, x: Id, top: Id)
    requires WellFormed(a) && x < |a| && Under(a, x, top)
    ensures top <= x
    decreases x
  {
    if x != top {
      UnderIsLater(a, a[x].ret.value, top);
    }
  }

  lemma {:induction false} UnderTransitive(a: Arena, x: Id, y: Id, z: Id)
    requires WellFormed(a) && x < |a| && y < |a|
    requires Under(a, x, y) && Under(a, y, z)
    ensures Under(a, x, z)
    decreases x
  {
    if x != y {
      UnderTransitive(a, a[x].ret.value, y, z);
    }
  }

  /** Two fibers with the same parent have disjoint subtrees: no fiber lies
      below two different children of one node. */
  lemma {:induction false} SiblingSubtreesDisjoint(a: Arena, x: Id, c1: Id, c2: Id)
    requires WellFormed(a) && x < |a| && c1 < |a| && c2 < |a|
    requires a[c1].ret.Some? && a[c1].ret == a[c2].ret
    requires Under(a, x, c1) && Under(a, x, c2)
    ensures c1 == c2
    decreases x
  {
    if x == c1 {
      if c1 != c2 {
        UnderIsLater(a, a[x].ret.value, c2);
      }
    } else if x == c2 {
      UnderIsLater(a, a[x].ret.value, c1);
    } else {
      SiblingSubtreesDisjoint(a, a[x].ret.value, c1, c2);
    }
  }

  /** In a consistent arena every fiber of a child chain has the chain's
      parent as `return`. */
  lemma {:induction false} ChainReturns(a: Arena, c: Option<Id>, parent: Option<Id>)
    requires ReturnsConsistent(a) && InRange(a, c)
    requires c.Some? ==> a[c.value].ret == parent
    ensures forall k | 0 <= k < |Chain(a, c)| :: a[Chain(a, c)[k]].ret == parent
    decreases if c.Some? then |a| - c.value else 0
  {
    if c.Some? {
      assert ReturnOk(a, c.value);
      ChainReturns(a, a[c.value].sibling, parent);
    }
  }
}
