/** The mutation part of the commit phase
    (packages/react-reconciler/src/commitWork.ts): a depth-first walk of the
    finished tree that enters a subtree only when its `subtreeFlags` carry
    mutation work, handles each fiber after its children, performs the
    Placement of a fiber by appending its host frontier into the nearest host
    parent, and clears the fiber's mutation flags. */
module CommitWork {
  import opened Options
  import opened FiberFlags
  import opened Fibers
  import opened HostFrontier
  import opened Seqs

  /** Fibers whose host object takes children: the root (its container) and
      host components. */
  predicate IsHostParent(t: Tag) {
    t.HostRoot? || t.HostComponent?
  }

  /** The container a host-parent fiber offers: the root node's container, or
      the component's own instance (null while it has none). */
  function ContainerOf(f: Fiber): Option<Instance> {
    match f.stateNode
    case RootNode(c) => Some(c)
    case HostInstance(i) => Some(i)
    case NoStateNode => None
  }

  /** Position `k` of `anc` is the first one holding a host-parent fiber. */
  predicate FirstHostParent(a: Arena, anc: seq<Id>, k: int)
    requires forall j | 0 <= j < |anc| :: anc[j] < |a|
  {
    && 0 <= k < |anc| && IsHostParent(a[anc[k]].tag)
    && forall j | 0 <= j < k :: !IsHostParent(a[anc[j]].tag)
  }

  /** No position of `anc` holds a host-parent fiber. */
  predicate NoHostParent(a: Arena, anc: seq<Id>)
    requires forall j | 0 <= j < |anc| :: anc[j] < |a|
  {
    forall k | 0 <= k < |anc| :: !IsHostParent(a[anc[k]].tag)
  }

  /** The loop of `getHostParent`, climbing from `p`. */
  function FindHostParent(a: Arena, p: Option<Id>): Option<Instance>
    requires WellFormed(a) && InRange(a, p)
    decreases if p.Some? then p.value + 1 else 0
  {
    if p.None? then None
    else
      var parent := a[p.value];
      assert LinksOk(a, p.value);
      if parent.tag.HostRoot? then Some(parent.stateNode.container)
      else if parent.tag.HostComponent? then
        (match parent.stateNode case HostInstance(i) => Some(i) case _ => None)
      else FindHostParent(a, parent.ret)
  }

  /** When position `k` of the `return` chain from `p` is the first host
      parent, the climb answers with that fiber's container. */
  lemma {:induction false} FindHostParentFirst(a: Arena, p: Option<Id>, k: nat)
    requires WellFormed(a) && InRange(a, p)
    requires FirstHostParent(a, Ancestors(a, p), k)
    ensures FindHostParent(a, p) == ContainerOf(a[Ancestors(a, p)[k]])
    decreases if p.Some? then p.value + 1 else 0
  {
    var x := p.value;
    var anc := Ancestors(a, p);
    var up := Ancestors(a, a[x].ret);
    assert LinksOk(a, x);
    assert anc == [x] + up;
    if k > 0 {
      assert !IsHostParent(a[anc[0]].tag);
      assert FirstHostParent(a, up, k - 1) by {
        forall j | 0 <= j < k - 1 ensures !IsHostParent(a[up[j]].tag) {
          assert up[j] == anc[j + 1];
        }
      }
      FindHostParentFirst(a, a[x].ret, k - 1);
    }
  }

  /** When the `return` chain from `p` holds no host parent, the climb
      answers null. */
  lemma {:induction false} FindHostParentNone(a: Arena, p: Option<Id>)
    requires WellFormed(a) && InRange(a, p)
    requires NoHostParent(a, Ancestors(a, p))
    ensures FindHostParent(a, p).None?
    decreases if p.Some? then p.value + 1 else 0
  {
    if p.Some? {
      var x := p.value;
      var anc := Ancestors(a, p);
      var up := Ancestors(a, a[x].ret);
      assert LinksOk(a, x);
      assert anc == [x] + up;
      assert !IsHostParent(a[anc[0]].tag);
      forall k | 0 <= k < |up| ensures !IsHostParent(a[up[k]].tag) {
        assert up[k] == anc[k + 1];
      }
      FindHostParentNone(a, a[x].ret);
    }
  }

  lemma FindHostParentIsNearest(a: Arena, p: Option<Id>)
    requires WellFormed(a) && InRange(a, p)
    ensures var anc := Ancestors(a, p);
      && (NoHostParent(a, anc) ==> FindHostParent(a, p).None?)
      && (forall k | FirstHostParent(a, anc, k) :: FindHostParent(a, p) == ContainerOf(a[anc[k]]))
  {
    var anc := Ancestors(a, p);
    if NoHostParent(a, anc) {
      FindHostParentNone(a, p);
    }
    forall k | FirstHostParent(a, anc, k)
      ensures FindHostParent(a, p) == ContainerOf(a[anc[k]])
    {
      FindHostParentFirst(a, p, k);
    }
  }

  /** `getHostParent(fiber)`: the container of the nearest host parent among
      the fiber's proper ancestors (the fiber itself is never a candidate), or
      null when there is none. */
  function GetHostParent(a: Arena, x: Id): (r: Option<Instance>)
    requires WellFormed(a) && x < |a|
    ensures var anc := Ancestors(a, a[x].ret);
      && x !in anc
      && (NoHostParent(a, anc) ==> r.None?)
      && (forall k | FirstHostParent(a, anc, k) :: r == ContainerOf(a[anc[k]]))
  {
    assert LinksOk(a, x);
    FindHostParentIsNearest(a, a[x].ret);
    FindHostParent(a, a[x].ret)
  }

  lemma ContainerAppendsConcat(a: Arena, container: Instance, xs: seq<Id>, ys: seq<Id>)
    requires forall k | 0 <= k < |xs| :: xs[k] < |a|
    requires forall k | 0 <= k < |ys| :: ys[k] < |a|
    ensures ContainerAppends(a, container, xs + ys)
            == ContainerAppends(a, container, xs) + ContainerAppends(a, container, ys)
  {
  }

  /** `appendPlacementNodeIntoContainer(fiber, hostParent)`: a host fiber
      appends its own instance; any other fiber appends those of its children,
      left to right. The calls made are one `appendChildToContainer` per fiber
      of the host frontier, in order. */
  function AppendPlacementNode(a: Arena, x: Id, hostParent: Instance): (ops: seq<HostOp>)
    requires WellFormed(a) && x < |a|
    ensures ops == ContainerAppends(a, hostParent, HostNodes(a, x))
    decreases |a| - x, 0
  {
    if IsHost(a[x].tag) then
      [AppendChildToContainer(a[x].stateNode, hostParent)]
    else if a[x].child.None? then
      []
    else
      var c := a[x].child.value;
      ContainerAppendsConcat(a, hostParent, HostNodes(a, c), HostNodesChain(a, a[c].sibling));
      AppendPlacementNode(a, c, hostParent) + AppendPlacementSiblings(a, a[c].sibling, hostParent)
  }

  /** The `while (sibling !== null)` loop of the function above. */
  function AppendPlacementSiblings(a: Arena, s: Option<Id>, hostParent: Instance): (ops: seq<HostOp>)
    requires WellFormed(a) && InRange(a, s)
    ensures ops == ContainerAppends(a, hostParent, HostNodesChain(a, s))
    decreases if s.Some? then |a| - s.value else 0, 1
  {
    if s.None? then
      []
    else
      var n := s.value;
      ContainerAppendsConcat(a, hostParent, HostNodes(a, n), HostNodesChain(a, a[n].sibling));
      AppendPlacementNode(a, n, hostParent) + AppendPlacementSiblings(a, a[n].sibling, hostParent)
  }

  /** `commitPlacement(fiber)`: nothing happens without a host parent;
      otherwise the fiber's host frontier is appended to it. */
  function CommitPlacement(a: Arena, x: Id): (ops: seq<HostOp>)
    requires WellFormed(a) && x < |a|
    ensures GetHostParent(a, x).None? ==> ops == []
    ensures GetHostParent(a, x).Some? ==>
              ops == ContainerAppends(a, GetHostParent(a, x).value, HostNodes(a, x))
  {
    var hostParent := GetHostParent(a, x);
    if hostParent.Some? then AppendPlacementNode(a, x, hostParent.value) else []
  }

  /** An arena after some commit work, and the host calls made. */
  datatype Committed = Committed(arena: Arena, log: seq<HostOp>)

  /** `commitMutationEffectsOnFiber(fiber)`: on a snapshot of the flags, a
      Placement is performed and then cleared; Update and ChildDeletion are only
      cleared. Only the fiber's own flags change, and of them only the mutation
      bits. */
  function CommitMutationEffectsOnFiber(a: Arena, x: Id): (r: Committed)
    requires WellFormed(a) && x < |a|
    ensures SameShape(a, r.arena)
    ensures r.arena[x].flags == Clear(a[x].flags, MutationMask)
    ensures forall i | 0 <= i < |a| && i != x :: r.arena[i] == a[i]
    ensures PlacementBit in a[x].flags ==> r.log == CommitPlacement(a, x)
    ensures PlacementBit !in a[x].flags ==> r.log == []
  {
    var flags := a[x].flags;
    var log := if HasAny(flags, Placement) then CommitPlacement(a, x) else [];
    var f1 := if HasAny(flags, Placement) then Clear(a[x].flags, Placement) else a[x].flags;
    var f2 := if HasAny(flags, Update) then Clear(f1, Update) else f1;
    var f3 := if HasAny(flags, ChildDeletion) then Clear(f2, ChildDeletion) else f2;
    Committed(a[x := a[x].(flags := f3)], log)
  }

  /** Handling `ids` one after the other, each on the arena the previous one
      left: the reference the walk below is proved against. */
  function HandleAll(a: Arena, ids: seq<Id>): (r: Committed)
    requires WellFormed(a) && forall k | 0 <= k < |ids| :: ids[k] < |a|
    ensures SameShape(a, r.arena)
    decreases |ids|
  {
    if |ids| == 0 then
      Committed(a, [])
    else
      var before := HandleAll(a, ids[..|ids| - 1]);
      SameShapeKeepsShape(a, before.arena);
      var step := CommitMutationEffectsOnFiber(before.arena, ids[|ids| - 1]);
      Committed(step.arena, before.log + step.log)
  }

  /** The placements of `ids`, each computed on the arena as it was before the
      commit. */
  function PlacementLog(a: Arena, ids: seq<Id>): seq<HostOp>
    requires WellFormed(a) && forall k | 0 <= k < |ids| :: ids[k] < |a|
    decreases |ids|
  {
    if |ids| == 0 then
      []
    else
      var x := ids[|ids| - 1];
      PlacementLog(a, ids[..|ids| - 1]) + (if PlacementBit in a[x].flags then CommitPlacement(a, x) else [])
  }

  /** After handling `ids`, exactly the fibers in `ids` have lost their
      mutation bits and nothing else has changed. */
  lemma {:induction false} HandleAllArena(a: Arena, ids: seq<Id>)
    requires WellFormed(a) && forall k | 0 <= k < |ids| :: ids[k] < |a|
    ensures forall i | 0 <= i < |a| ::
      HandleAll(a, ids).arena[i]
      == if i in ids then a[i].(flags := Clear(a[i].flags, MutationMask)) else a[i]
    decreases |ids|
  {
    if |ids| > 0 {
      var init := ids[..|ids| - 1];
      var x := ids[|ids| - 1];
      assert ids == init + [x];
      HandleAllArena(a, init);
    }
  }

  lemma {:induction false} SameShapeHostNodes(a: Arena, b: Arena, x: Id)
    requires WellFormed(a) && SameShape(a, b) && x < |a|
    ensures WellFormed(b) && HostNodes(b, x) == HostNodes(a, x)
    decreases |a| - x, 0
  {
    SameShapeKeepsShape(a, b);
    if !IsHost(a[x].tag) {
      assert LinksOk(a, x);
      SameShapeHostNodesChain(a, b, a[x].child);
    }
  }

  lemma {:induction false} SameShapeHostNodesChain(a: Arena, b: Arena, c: Option<Id>)
    requires WellFormed(a) && SameShape(a, b) && InRange(a, c)
    ensures WellFormed(b) && HostNodesChain(b, c) == HostNodesChain(a, c)
    decreases if c.Some? then |a| - c.value else 0, 1
  {
    SameShapeKeepsShape(a, b);
    if c.Some? {
      assert LinksOk(a, c.value);
      SameShapeHostNodes(a, b, c.value);
      SameShapeHostNodesChain(a, b, a[c.value].sibling);
    }
  }

  lemma {:induction false} SameShapeHostParent(a: Arena, b: Arena, p: Option<Id>)
    requires WellFormed(a) && SameShape(a, b) && InRange(a, p)
    ensures WellFormed(b) && FindHostParent(b, p) == FindHostParent(a, p)
    decreases if p.Some? then p.value + 1 else 0
  {
    SameShapeKeepsShape(a, b);
    if p.Some? {
      assert LinksOk(a, p.value);
      SameShapeHostParent(a, b, a[p.value].ret);
    }
  }

  /** A Placement does not depend on any fiber's flags. */
  lemma PlacementIgnoresFlags(a: Arena, b: Arena, x: Id)
    requires WellFormed(a) && SameShape(a, b) && x < |a|
    ensures WellFormed(b) && CommitPlacement(b, x) == CommitPlacement(a, x)
  {
    SameShapeHostNodes(a, b, x);
    SameShapeHostParent(a, b, a[x].ret);
    var hs := HostNodes(a, x);
    var hp := GetHostParent(a, x);
    if hp.Some? {
      assert ContainerAppends(b, hp.value, hs) == ContainerAppends(a, hp.value, hs);
    }
  }

  /** When no fiber is handled twice, the host calls of the commit are the
      placements of the handled fibers, in order, as computed on the tree
      before the commit: clearing flags along the way never changes a later
      placement. */
  lemma {:induction false} HandleAllLog(a: Arena, ids: seq<Id>)
    requires WellFormed(a) && forall k | 0 <= k < |ids| :: ids[k] < |a|
    requires NoDuplicates(ids)
    ensures HandleAll(a, ids).log == PlacementLog(a, ids)
    decreases |ids|
  {
    if |ids| > 0 {
      var init := ids[..|ids| - 1];
      var x := ids[|ids| - 1];
      assert NoDuplicates(init) by {
        forall i, j | 0 <= i < j < |init| ensures init[i] != init[j] {
          assert init[i] == ids[i] && init[j] == ids[j];
        }
      }
      assert x !in init by {
        forall i | 0 <= i < |init| ensures init[i] != x {
          assert init[i] == ids[i];
        }
      }
      HandleAllLog(a, init);
      HandleAllArena(a, init);
      var before := HandleAll(a, init);
      assert before.arena[x] == a[x];
      PlacementIgnoresFlags(a, before.arena, x);
    }
  }

  /** The walk enters the children of `n`: its subtree has mutation work and
      it has a child. */
  predicate Descends(a: Arena, n: Id)
    requires WellFormed(a) && n < |a|
  {
    HasAny(a[n].subtreeFlags, MutationMask) && a[n].child.Some?
  }

  /** The order in which the walk handles the subtree of `n`: the children's
      subtrees if it descends, left to right, then `n` itself. */
  function PostOrder(a: Arena, n: Id): (r: seq<Id>)
    requires WellFormed(a) && n < |a|
    ensures |r| > 0 && r[|r| - 1] == n
    ensures forall k | 0 <= k < |r| :: n <= r[k] < |a|
    decreases |a| - n, 0
  {
    assert LinksOk(a, n);
    (if Descends(a, n) then PostOrderChain(a, a[n].child) else []) + [n]
  }

  function PostOrderChain(a: Arena, c: Option<Id>): (r: seq<Id>)
    requires WellFormed(a) && InRange(a, c)
    ensures forall k | 0 <= k < |r| :: c.Some? && c.value <= r[k] < |a|
    decreases if c.Some? then |a| - c.value else 0, 1
  {
    if c.None? then [] else
      assert LinksOk(a, c.value);
      PostOrder(a, c.value) + PostOrderChain(a, a[c.value].sibling)
  }

  /** `y` is `top`, or its parent is reached and has mutation work below it,
      so that the walk enters the parent's children. */
  predicate Reached(a: Arena, y: Id, top: Id)
    requires WellFormed(a) && y < |a|
    decreases y
  {
    y == top || (a[y].ret.Some? && Descends(a, a[y].ret.value) && Reached(a, a[y].ret.value, top))
  }

  lemma {:induction false} ReachedIsUnder(a: Arena, y: Id, top: Id)
    requires WellFormed(a) && y < |a| && Reached(a, y, top)
    ensures Under(a, y, top)
    decreases y
  {
    if y != top {
      ReachedIsUnder(a, a[y].ret.value, top);
    }
  }

  lemma {:induction false} ReachedExtend(a: Arena, y: Id, m: Id, top: Id)
    requires WellFormed(a) && y < |a| && m < |a|
    requires Reached(a, y, m) && a[m].ret == Some(top) && Descends(a, top)
    ensures Reached(a, y, top)
    decreases y
  {
    if y != m {
      ReachedExtend(a, a[y].ret.value, m, top);
    }
  }

  /** Only fibers the walk reaches from `n` are handled: a subtree whose
      `subtreeFlags` carry no mutation bit is never entered. */
  lemma {:induction false} PostOrderReached(a: Arena, n: Id)
    requires ReturnsConsistent(a) && n < |a|
    ensures forall y | y in PostOrder(a, n) :: Reached(a, y, n)
    decreases |a| - n, 0
  {
    if Descends(a, n) {
      assert ReturnOk(a, n);
      PostOrderChainReached(a, a[n].child, n);
    }
  }

  lemma {:induction false} PostOrderChainReached(a: Arena, c: Option<Id>, top: Id)
    requires ReturnsConsistent(a) && InRange(a, c) && top < |a|
    requires c.Some? ==> a[c.value].ret == Some(top) && Descends(a, top)
    ensures forall y | y in PostOrderChain(a, c) :: Reached(a, y, top)
    decreases if c.Some? then |a| - c.value else 0, 1
  {
    if c.Some? {
      var m := c.value;
      assert ReturnOk(a, m);
      PostOrderReached(a, m);
      forall y | y in PostOrder(a, m)
        ensures Reached(a, y, top)
      {
        ReachedExtend(a, y, m, top);
      }
      PostOrderChainReached(a, a[m].sibling, top);
    }
  }

  lemma PostOrderUnder(a: Arena, n: Id)
    requires ReturnsConsistent(a) && n < |a|
    ensures forall y | y in PostOrder(a, n) :: Under(a, y, n)
  {
    PostOrderReached(a, n);
    forall y | y in PostOrder(a, n)
      ensures Under(a, y, n)
    {
      ReachedIsUnder(a, y, n);
    }
  }

  /** No fiber of `s` comes after a fiber it lies below (nor after itself):
      each fiber is handled once, after every handled fiber below it. */
  predicate ChildrenFirst(a: Arena, s: seq<Id>)
    requires WellFormed(a) && forall k | 0 <= k < |s| :: s[k] < |a|
  {
    forall i, j | 0 <= i < j < |s| :: !Under(a, s[j], s[i])
  }

  lemma ChildrenFirstConcat(a: Arena, xs: seq<Id>, ys: seq<Id>)
    requires WellFormed(a)
    requires forall k | 0 <= k < |xs| :: xs[k] < |a|
    requires forall k | 0 <= k < |ys| :: ys[k] < |a|
    requires ChildrenFirst(a, xs) && ChildrenFirst(a, ys)
    requires forall i, j | 0 <= i < |xs| && 0 <= j < |ys| :: !Under(a, ys[j], xs[i])
    ensures ChildrenFirst(a, xs + ys)
  {
    var s := xs + ys;
    forall i, j | 0 <= i < j < |s|
      ensures !Under(a, s[j], s[i])
    {
      if j < |xs| {
        assert s[i] == xs[i] && s[j] == xs[j];
      } else if i >= |xs| {
        assert s[i] == ys[i - |xs|] && s[j] == ys[j - |xs|];
      } else {
        assert s[i] == xs[i] && s[j] == ys[j - |xs|];
      }
    }
  }

  /** No fiber handled in a later sibling's subtree lies below a fiber `x` of
      `c`'s subtree. */
  lemma {:induction false} LaterSiblingsNotBelow(a: Arena, x: Id, c: Id, d: Option<Id>)
    requires ReturnsConsistent(a) && x < |a| && c < |a| && InRange(a, d)
    requires a[c].ret.Some? && Under(a, x, c)
    requires d.Some? ==> c < d.value && a[d.value].ret == a[c].ret
    ensures forall y | y in PostOrderChain(a, d) :: !Under(a, y, x)
    decreases if d.Some? then |a| - d.value else 0
  {
    if d.Some? {
      var s := d.value;
      assert ReturnOk(a, s);
      PostOrderUnder(a, s);
      forall y | y in PostOrder(a, s)
        ensures !Under(a, y, x)
      {
        if Under(a, y, x) {
          UnderTransitive(a, y, x, c);
          SiblingSubtreesDisjoint(a, y, c, s);
        }
      }
      LaterSiblingsNotBelow(a, x, c, a[s].sibling);
    }
  }

  /** The walk's order is a post-order: every fiber is handled once, and only
      after the handled fibers below it. */
  lemma {:induction false} PostOrderChildrenFirst(a: Arena, n: Id)
    requires ReturnsConsistent(a) && n < |a|
    ensures ChildrenFirst(a, PostOrder(a, n))
    decreases |a| - n, 0
  {
    assert LinksOk(a, n);
    var xs := if Descends(a, n) then PostOrderChain(a, a[n].child) else [];
    if Descends(a, n) {
      assert ReturnOk(a, n);
      PostOrderChainChildrenFirst(a, a[n].child);
    }
    forall i | 0 <= i < |xs|
      ensures !Under(a, n, xs[i])
    {
      if Under(a, n, xs[i]) {
        UnderIsLater(a, n, xs[i]);
      }
    }
    ChildrenFirstConcat(a, xs, [n]);
  }

  lemma {:induction false} PostOrderChainChildrenFirst(a: Arena, c: Option<Id>)
    requires ReturnsConsistent(a) && InRange(a, c)
    requires c.Some? ==> a[c.value].ret.Some?
    ensures ChildrenFirst(a, PostOrderChain(a, c))
    decreases if c.Some? then |a| - c.value else 0, 1
  {
    if c.Some? {
      var m := c.value;
      assert ReturnOk(a, m);
      var xs := PostOrder(a, m);
      var ys := PostOrderChain(a, a[m].sibling);
      PostOrderChildrenFirst(a, m);
      PostOrderChainChildrenFirst(a, a[m].sibling);
      PostOrderUnder(a, m);
      forall i, j | 0 <= i < |xs| && 0 <= j < |ys|
        ensures !Under(a, ys[j], xs[i])
      {
        assert xs[i] in xs;
        LaterSiblingsNotBelow(a, xs[i], m, a[m].sibling);
        assert ys[j] in ys;
      }
      ChildrenFirstConcat(a, xs, ys);
    }
  }

  lemma ChildrenFirstNoDuplicates(a: Arena, s: seq<Id>)
    requires WellFormed(a) && forall k | 0 <= k < |s| :: s[k] < |a|
    requires ChildrenFirst(a, s)
    ensures NoDuplicates(s)
  {
    forall i, j | 0 <= i < j < |s|
      ensures s[i] != s[j]
    {
      assert !Under(a, s[j], s[i]);
    }
  }

  /** What the whole commit of `root`'s tree amounts to: the handled fibers,
      and only they, lose their mutation bits; a fiber the walk does not
      reach is untouched; the host calls are the placements of the handled
      fibers, in post-order, as computed on the tree before the commit. */
  lemma CommitOutcome(a: Arena, root: Id)
    requires ReturnsConsistent(a) && root < |a|
    ensures var done := HandleAll(a, PostOrder(a, root));
      && (forall i | 0 <= i < |a| ::
            done.arena[i] == if i in PostOrder(a, root)
                             then a[i].(flags := Clear(a[i].flags, MutationMask))
                             else a[i])
      && (forall i | 0 <= i < |a| && !Reached(a, i, root) :: done.arena[i] == a[i])
      && done.log == PlacementLog(a, PostOrder(a, root))
  {
    var ids := PostOrder(a, root);
    HandleAllArena(a, ids);
    PostOrderReached(a, root);
    PostOrderChildrenFirst(a, root);
    ChildrenFirstNoDuplicates(a, ids);
    HandleAllLog(a, ids);
  }

  // The iterative walk. `q` is the path from the current fiber up to the
  // root (current fiber first); `done` the fibers handled so far; `total`
  // the whole post-order.

  /** The post-order of what is left after the subtree of `q[0]`: its later
      siblings' subtrees, then its parent, and so on up to the root. */
  ghost function RestPost(a: Arena, q: seq<Id>): seq<Id>
    requires WellFormed(a) && forall k | 0 <= k < |q| :: q[k] < |a|
    decreases |q|
  {
    if |q| == 0 then []
    else
      assert LinksOk(a, q[0]);
      PostOrderChain(a, a[q[0]].sibling) + (if |q| > 1 then [q[1]] else []) + RestPost(a, q[1..])
  }

  ghost predicate RootPath(a: Arena, q: seq<Id>, root: Id) {
    && 0 < |q| && q[|q| - 1] == root
    && (forall k | 0 <= k < |q| :: q[k] < |a|)
    && forall k | 0 <= k < |q| - 1 :: a[q[k]].ret == Some(q[k + 1])
  }

  ghost predicate WalkBase(a: Arena, root: Id, done: seq<Id>, q: seq<Id>) {
    && ReturnsConsistent(a) && root < |a| && a[root].ret.None? && a[root].sibling.None?
    && RootPath(a, q, root)
    && forall k | 0 <= k < |done| :: done[k] < |a|
  }

  /** About to visit `q[0]`: its whole subtree is still to be handled. */
  ghost predicate VisitInv(a: Arena, root: Id, total: seq<Id>, done: seq<Id>, q: seq<Id>) {
    WalkBase(a, root, done, q) && total == done + PostOrder(a, q[0]) + RestPost(a, q)
  }

  /** About to handle `q[0]`: its subtree below it is done. */
  ghost predicate HandleInv(a: Arena, root: Id, total: seq<Id>, done: seq<Id>, q: seq<Id>) {
    WalkBase(a, root, done, q) && total == done + [q[0]] + RestPost(a, q)
  }

  lemma WalkStart(a: Arena, root: Id)
    requires ReturnsConsistent(a) && root < |a| && a[root].ret.None? && a[root].sibling.None?
    ensures VisitInv(a, root, PostOrder(a, root), [], [root])
  {
    assert RestPost(a, [root]) == [];
  }

  lemma WalkDescend(a: Arena, root: Id, total: seq<Id>, done: seq<Id>, q: seq<Id>)
    requires VisitInv(a, root, total, done, q) && Descends(a, q[0])
    ensures VisitInv(a, root, total, done, [a[q[0]].child.value] + q)
  {
    var n := q[0];
    assert ReturnOk(a, n) && LinksOk(a, n);
    var c := a[n].child.value;
    var q' := [c] + q;
    assert q'[1..] == q;
    forall k | 0 <= k < |q'| - 1 ensures a[q'[k]].ret == Some(q'[k + 1]) {
      if k > 0 {
        assert q'[k] == q[k - 1] && q'[k + 1] == q[k];
      }
    }
    var sib := PostOrderChain(a, a[c].sibling);
    assert PostOrder(a, n) == (PostOrder(a, c) + sib) + [n];
    assert RestPost(a, q') == sib + [n] + RestPost(a, q);
    ConcatAssoc(PostOrder(a, c), sib, [n]);
    ConcatAssoc(PostOrder(a, c), sib + [n], RestPost(a, q));
    ConcatAssoc(done, PostOrder(a, c), sib + [n] + RestPost(a, q));
    ConcatAssoc(done, PostOrder(a, n), RestPost(a, q));
  }

  lemma WalkFinishVisit(a: Arena, root: Id, total: seq<Id>, done: seq<Id>, q: seq<Id>)
    requires VisitInv(a, root, total, done, q) && !Descends(a, q[0])
    ensures HandleInv(a, root, total, done, q)
  {
    assert PostOrder(a, q[0]) == [q[0]];
  }

  lemma WalkAcross(a: Arena, root: Id, total: seq<Id>, done: seq<Id>, q: seq<Id>)
    requires HandleInv(a, root, total, done, q) && a[q[0]].sibling.Some?
    ensures VisitInv(a, root, total, done + [q[0]], [a[q[0]].sibling.value] + q[1..])
  {
    var m := q[0];
    assert ReturnOk(a, m) && LinksOk(a, m);
    var s := a[m].sibling.value;
    assert |q| > 1;
    var q' := [s] + q[1..];
    assert q'[1..] == q[1..] && q'[1] == q[1];
    forall k | 0 <= k < |q'| - 1 ensures a[q'[k]].ret == Some(q'[k + 1]) {
      if k > 0 {
        assert q'[k] == q[k] && q'[k + 1] == q[k + 1];
      }
    }
    RestPostAcross(a, q);
    ConcatAssoc(done, [m], PostOrder(a, s) + RestPost(a, q'));
    ConcatAssoc(done + [m], PostOrder(a, s), RestPost(a, q'));
  }

  /** What is left after `q[0]` is its next sibling's subtree and what is
      left after that sibling. */
  lemma RestPostAcross(a: Arena, q: seq<Id>)
    requires WellFormed(a) && |q| > 1 && forall k | 0 <= k < |q| :: q[k] < |a|
    requires a[q[0]].sibling.Some?
    ensures var s := a[q[0]].sibling.value;
      RestPost(a, q) == PostOrder(a, s) + RestPost(a, [s] + q[1..])
  {
    assert LinksOk(a, q[0]);
    var s := a[q[0]].sibling.value;
    assert LinksOk(a, s);
    var q' := [s] + q[1..];
    assert q'[1..] == q[1..] && q'[1] == q[1] && q'[0] == s;
    var sib := PostOrderChain(a, a[s].sibling);
    var tail := [q[1]] + RestPost(a, q[1..]);
    ConcatAssoc(sib, [q[1]], RestPost(a, q[1..]));
    ConcatAssoc(PostOrder(a, s) + sib, [q[1]], RestPost(a, q[1..]));
    ConcatAssoc(PostOrder(a, s), sib, tail);
  }

  lemma WalkUp(a: Arena, root: Id, total: seq<Id>, done: seq<Id>, q: seq<Id>)
    requires HandleInv(a, root, total, done, q)
    requires a[q[0]].sibling.None? && a[q[0]].ret.Some?
    ensures |q| > 1 && a[q[0]].ret == Some(q[1])
    ensures HandleInv(a, root, total, done + [q[0]], q[1..])
  {
    assert |q| > 1;
    var q' := q[1..];
    forall k | 0 <= k < |q'| - 1 ensures a[q'[k]].ret == Some(q'[k + 1]) {
      assert q'[k] == q[k + 1] && q'[k + 1] == q[k + 2];
    }
    assert RestPost(a, q) == [q[1]] + RestPost(a, q');
    ConcatAssoc(done, [q[0]], [q[1]] + RestPost(a, q'));
  }

  lemma WalkEnd(a: Arena, root: Id, total: seq<Id>, done: seq<Id>, q: seq<Id>)
    requires HandleInv(a, root, total, done, q)
    requires a[q[0]].sibling.None? && a[q[0]].ret.None?
    ensures total == done + [q[0]]
  {
    assert |q| == 1;
    assert RestPost(a, q) == [];
  }

  /** Handling one more fiber on the walk's arena extends the reference by
      that fiber; the pointers the walk reads next are those of `a`. */
  lemma HandleStep(a: Arena, done: seq<Id>, m: Id, r: Arena, ops: seq<HostOp>)
    requires WellFormed(a) && m < |a| && forall k | 0 <= k < |done| :: done[k] < |a|
    requires Committed(r, ops) == HandleAll(a, done)
    ensures WellFormed(r) && m < |r|
    ensures var e := CommitMutationEffectsOnFiber(r, m);
      && Committed(e.arena, ops + e.log) == HandleAll(a, done + [m])
      && e.arena[m].sibling == a[m].sibling && e.arena[m].ret == a[m].ret
  {
    assert (done + [m])[..|done|] == done;
    SameShapeKeepsShape(a, r);
    assert r[m] == a[m].(flags := r[m].flags);
  }

  /** The fields the walk reads to decide whether to descend are those of `a`. */
  lemma VisitReads(a: Arena, done: seq<Id>, n: Id, r: Arena, ops: seq<HostOp>)
    requires WellFormed(a) && n < |a| && forall k | 0 <= k < |done| :: done[k] < |a|
    requires Committed(r, ops) == HandleAll(a, done)
    ensures n < |r| && r[n].child == a[n].child && r[n].subtreeFlags == a[n].subtreeFlags
  {
    assert r[n] == a[n].(flags := r[n].flags);
  }

  /** One round of the `up:` loop: handling `q[0]` extends the reference,
      and the walk goes on at its next sibling, at its parent, or stops. */
  lemma UpStep(a: Arena, root: Id, total: seq<Id>, done: seq<Id>, q: seq<Id>, r: Arena, ops: seq<HostOp>)
    requires HandleInv(a, root, total, done, q)
    requires Committed(r, ops) == HandleAll(a, done)
    ensures WellFormed(r) && q[0] < |r|
    ensures var m := q[0];
      var e := CommitMutationEffectsOnFiber(r, m);
      var done' := done + [m];
      && (forall k | 0 <= k < |done'| :: done'[k] < |a|)
      && Committed(e.arena, ops + e.log) == HandleAll(a, done')
      && e.arena[m].sibling == a[m].sibling && e.arena[m].ret == a[m].ret
      && (a[m].sibling.Some? ==>
            VisitInv(a, root, total, done', [a[m].sibling.value] + q[1..]))
      && (a[m].sibling.None? && a[m].ret.Some? ==>
            |q| > 1 && a[m].ret == Some(q[1]) && HandleInv(a, root, total, done', q[1..]))
      && (a[m].sibling.None? && a[m].ret.None? ==> done' == total)
  {
    var m := q[0];
    HandleStep(a, done, m, r, ops);
    if a[m].sibling.Some? {
      WalkAcross(a, root, total, done, q);
    } else if a[m].ret.Some? {
      WalkUp(a, root, total, done, q);
    } else {
      WalkEnd(a, root, total, done, q);
    }
  }

  /** The `up:` loop of `commitMutationEffects`: handle the fiber, then move
      to its next sibling if it has one (to be visited) or else climb to its
      parent and handle that; the walk ends above the root. */
  method CommitUp(a: Arena, root: Id, start: Id, r0: Arena, ops0: seq<HostOp>,
                  ghost total: seq<Id>, ghost done0: seq<Id>, ghost q0: seq<Id>)
    returns (next: Option<Id>, r: Arena, ops: seq<HostOp>, ghost done: seq<Id>, ghost q: seq<Id>)
    requires HandleInv(a, root, total, done0, q0) && q0[0] == start
    requires Committed(r0, ops0) == HandleAll(a, done0)
    ensures forall k | 0 <= k < |done| :: done[k] < |a|
    ensures Committed(r, ops) == HandleAll(a, done)
    ensures |done0| < |done|
    ensures next.Some? ==> VisitInv(a, root, total, done, q) && q[0] == next.value
    ensures next.None? ==> done == total
  {
    r, ops, done, q := r0, ops0, done0, q0;
    next := Some(start);
    while next.Some?
      invariant forall k | 0 <= k < |done| :: done[k] < |a|
      invariant Committed(r, ops) == HandleAll(a, done)
      invariant next.Some? ==> HandleInv(a, root, total, done, q) && q[0] == next.value
      invariant next.None? ==> done == total
      invariant |done0| <= |done| && (next == Some(start) || |done0| < |done|)
      decreases |total| - |done|
    {
      var m := next.value;
      UpStep(a, root, total, done, q, r, ops);
      var e := CommitMutationEffectsOnFiber(r, m);
      r, ops, done := e.arena, ops + e.log, done + [m];
      var sibling := r[m].sibling;
      if sibling.Some? {
        q := [sibling.value] + q[1..];
        next := sibling;
        return;
      }
      next := r[m].ret;
      q := q[1..];
    }
  }
  /** The descending loop of `commitMutationEffects`: descend while the
      subtree has mutation work and a child, otherwise run the `up:` loop;
      it handles the fibers in the order `PostOrder` gives. */
  method CommitWalk(a: Arena, root: Id) returns (r: Arena, ops: seq<HostOp>)
    requires ReturnsConsistent(a) && root < |a|
    requires a[root].ret.None? && a[root].sibling.None?
    ensures Committed(r, ops) == HandleAll(a, PostOrder(a, root))
  {
    r, ops := a, [];
    ghost var total := PostOrder(a, root);
    ghost var done: seq<Id> := [];
    ghost var q: seq<Id> := [root];
    WalkStart(a, root);
    var next: Option<Id> := Some(root);
    while next.Some?
      invariant forall k | 0 <= k < |done| :: done[k] < |a|
      invariant Committed(r, ops) == HandleAll(a, done)
      invariant next.Some? ==> VisitInv(a, root, total, done, q) && q[0] == next.value
      invariant next.None? ==> done == total
      decreases |total| - |done|, if next.Some? then |a| - next.value else 0
    {
      var n := next.value;
      VisitReads(a, done, n, r, ops);
      var child := r[n].child;
      if HasAny(r[n].subtreeFlags, MutationMask) && child.Some? {
        WalkDescend(a, root, total, done, q);
        next := child;
        q := [child.value] + q;
      } else {
        WalkFinishVisit(a, root, total, done, q);
        next, r, ops, done, q := CommitUp(a, root, n, r, ops, total, done, q);
      }
    }
  }

  /** `commitMutationEffects(finishedWork)`: the iterative depth-first walk.
      It handles the fibers in the post-order `PostOrder` describes: exactly
      those lose their mutation bits, a fiber the walk does not reach is
      untouched, and the host calls are the placements of the handled fibers
      in that order. */
  method CommitMutationEffects(a: Arena, root: Id) returns (r: Arena, ops: seq<HostOp>)
    requires ReturnsConsistent(a) && root < |a|
    requires a[root].ret.None? && a[root].sibling.None?
    ensures Committed(r, ops) == HandleAll(a, PostOrder(a, root))
    ensures forall i | 0 <= i < |a| ::
      r[i] == if i in PostOrder(a, root) then a[i].(flags := Clear(a[i].flags, MutationMask)) else a[i]
    ensures forall i | 0 <= i < |a| && !Reached(a, i, root) :: r[i] == a[i]
    ensures ops == PlacementLog(a, PostOrder(a, root))
  {
    r, ops := CommitWalk(a, root);
    CommitOutcome(a, root);
  }
}
