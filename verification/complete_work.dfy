/** The completion pass (packages/react-reconciler/src/completeWork.ts): run on
    each fiber after its children have completed, it creates host instances on
    mount, marks Update when a host fiber's payload changed, and bubbles the
    children's flags into `subtreeFlags`. */
module CompleteWork {
  import opened Options
  import opened FiberFlags
  import opened Fibers
  import opened HostFrontier
  import opened Seqs

  /** `workInProgress.flags |= Update`. */
  function MarkUpdate(f: Flags): (r: Flags)
    ensures UpdateBit in r
    ensures r - Update == f - Update
  {
    f + Update
  }

  /** Only the `flags` of fiber `w` may differ between `a` and `r`. */
  predicate OnlyFlagsOf(a: Arena, r: Arena, w: Id)
    requires w < |a|
  {
    |r| == |a| && r[w] == a[w].(flags := r[w].flags)
    && forall i | 0 <= i < |a| && i != w :: r[i] == a[i]
  }

  /** A text fiber is marked Update when the text of the committed fiber
      `current` differs from the new text; otherwise nothing changes. */
  function UpdateHostText(a: Arena, current: Id, w: Id): (r: Arena)
    requires WellFormed(a) && current < |a| && w < |a|
    ensures OnlyFlagsOf(a, r, w) && WellFormed(r)
    ensures a[current].memoizedProps.content != a[w].pendingProps.content ==>
              UpdateBit in r[w].flags && r[w].flags - Update == a[w].flags - Update
    ensures a[current].memoizedProps.content == a[w].pendingProps.content ==> r == a
  {
    var oldText := a[current].memoizedProps.content;
    var newText := a[w].pendingProps.content;
    if oldText != newText then
      var r := a[w := a[w].(flags := MarkUpdate(a[w].flags))];
      assert SameLinks(a, r);
      SameLinksKeepShape(a, r);
      r
    else a
  }

  /** A host component is marked Update when its new props object is not the
      very object committed last time (identity, not contents); otherwise
      nothing changes. */
  function UpdateHostComponent(a: Arena, current: Id, w: Id): (r: Arena)
    requires WellFormed(a) && current < |a| && w < |a|
    ensures OnlyFlagsOf(a, r, w) && WellFormed(r)
    ensures a[current].memoizedProps.ref != a[w].pendingProps.ref ==>
              UpdateBit in r[w].flags && r[w].flags - Update == a[w].flags - Update
    ensures a[current].memoizedProps.ref == a[w].pendingProps.ref ==> r == a
  {
    var oldProps := a[current].memoizedProps;
    var newProps := a[w].pendingProps;
    if oldProps.ref != newProps.ref then
      var r := a[w := a[w].(flags := MarkUpdate(a[w].flags))];
      assert SameLinks(a, r);
      SameLinksKeepShape(a, r);
      r
    else a
  }

  /** The union of `flags | subtreeFlags` over the sibling chain at `c`. */
  function ChildrenFlags(a: Arena, c: Option<Id>): Flags
    requires WellFormed(a) && InRange(a, c)
    decreases if c.Some? then |a| - c.value else 0
  {
    if c.None? then NoFlags
    else a[c.value].subtreeFlags + a[c.value].flags + ChildrenFlags(a, a[c.value].sibling)
  }

  /** The bubbled flags contain every child's `flags | subtreeFlags`. */
  lemma {:induction false} ChildrenFlagsContainEachChild(a: Arena, c: Option<Id>)
    requires WellFormed(a) && InRange(a, c)
    ensures forall i | 0 <= i < |a| && i in Chain(a, c) ::
              a[i].flags + a[i].subtreeFlags <= ChildrenFlags(a, c)
    decreases if c.Some? then |a| - c.value else 0
  {
    if c.Some? {
      ChildrenFlagsContainEachChild(a, a[c.value].sibling);
    }
  }

  /** A bit is in the bubbled flags if and only if some child of the chain
      has it in its `flags | subtreeFlags`: no bit appears from nowhere. */
  lemma {:induction false} ChildrenFlagsExact(a: Arena, c: Option<Id>, b: Bit)
    requires WellFormed(a) && InRange(a, c)
    ensures b in ChildrenFlags(a, c) <==>
              exists k | 0 <= k < |Chain(a, c)| :: b in a[Chain(a, c)[k]].flags + a[Chain(a, c)[k]].subtreeFlags
    decreases if c.Some? then |a| - c.value else 0
  {
    if c.Some? {
      var x := c.value;
      var ch := Chain(a, c);
      var rest := Chain(a, a[x].sibling);
      ChildrenFlagsExact(a, a[x].sibling, b);
      assert ch == [x] + rest;
      if b in ChildrenFlags(a, c) {
        if b !in a[x].flags + a[x].subtreeFlags {
          var k :| 0 <= k < |rest| && b in a[rest[k]].flags + a[rest[k]].subtreeFlags;
          assert ch[k + 1] == rest[k];
        } else {
          assert ch[0] == x;
        }
      } else {
        forall k | 0 <= k < |ch|
          ensures b !in a[ch[k]].flags + a[ch[k]].subtreeFlags
        {
          if k > 0 {
            assert ch[k] == rest[k - 1];
          }
        }
      }
    }
  }

  /** `bubbleProperties`: OR each child's `flags | subtreeFlags` into the
      fiber's `subtreeFlags` (keeping its old bits), and point every child's
      `return` at the fiber. Nothing else changes. */
  method BubbleProperties(a: Arena, w: Id) returns (r: Arena)
    requires WellFormed(a) && w < |a|
    ensures Bubbled(a, r, w)
  {
    var subtreeFlags := NoFlags;
    var child := a[w].child;
    r := a;
    BubbleStep(a, NoFlags, w, child, a);
    while child.Some?
      invariant BubbleInv(a, w, subtreeFlags, child, r)
      decreases if child.Some? then |a| - child.value else 0
    {
      var c := child.value;
      BubbleStep(a, subtreeFlags, w, child, r);
      subtreeFlags := subtreeFlags + a[c].subtreeFlags;
      subtreeFlags := subtreeFlags + a[c].flags;
      r := r[c := r[c].(ret := Some(w))];
      child := a[c].sibling;
    }
    BubbleDone(a, w, subtreeFlags, r);
    r := r[w := r[w].(subtreeFlags := r[w].subtreeFlags + subtreeFlags)];
  }

  /** `r` is `a` after `bubbleProperties` on `w`: `w` gained the children's
      flags in `subtreeFlags` and kept its old bits, each child of `w` has `w`
      as `return` and keeps its flags, and no other fiber changed. */
  predicate Bubbled(a: Arena, r: Arena, w: Id)
    requires WellFormed(a) && w < |a|
  {
    && |r| == |a|
    && r[w] == a[w].(subtreeFlags := a[w].subtreeFlags + ChildrenFlags(a, a[w].child))
    && forall i | 0 <= i < |a| && i != w ::
         r[i] == if i in Chain(a, a[w].child) then a[i].(ret := Some(w)) else a[i]
  }

  /** The loop state of `bubbleProperties` at the chain position `child`:
      `acc` and the rest of the chain make up all the children's flags, and
      the remaining `return` rewrites lead to the final arena. */
  ghost predicate BubbleInv(a: Arena, w: Id, acc: Flags, child: Option<Id>, r: Arena)
  {
    && WellFormed(a) && w < |a| && InRange(a, child) && |r| == |a|
    && acc + ChildrenFlags(a, child) == ChildrenFlags(a, a[w].child)
    && PointReturns(a, r, child, w) == PointReturns(a, a, a[w].child, w)
  }

  /** One turn of the `bubbleProperties` loop keeps its invariant; before the
      first turn the invariant holds. */
  lemma BubbleStep(a: Arena, acc: Flags, w: Id, child: Option<Id>, r: Arena)
    requires WellFormed(a) && w < |a|
    requires (acc == NoFlags && child == a[w].child && r == a) || BubbleInv(a, w, acc, child, r)
    ensures BubbleInv(a, w, acc, child, r)
    ensures child.Some? ==>
              var c := child.value;
              BubbleInv(a, w, acc + a[c].subtreeFlags + a[c].flags, a[c].sibling, r[c := r[c].(ret := Some(w))])
  {
  }

  /** When the chain is exhausted, merging `acc` into `w` yields the
      postcondition of `bubbleProperties`. */
  lemma BubbleDone(a: Arena, w: Id, acc: Flags, r: Arena)
    requires BubbleInv(a, w, acc, None, r)
    ensures Bubbled(a, r[w := r[w].(subtreeFlags := r[w].subtreeFlags + acc)], w)
  {
    AllReturnsPointed(a, w, r);
  }

  lemma AllReturnsPointed(a: Arena, w: Id, r: Arena)
    requires WellFormed(a) && w < |a| && |r| == |a|
    requires r == PointReturns(a, a, a[w].child, w)
    ensures r[w] == a[w]
    ensures forall i | 0 <= i < |a| :: r[i] == if i in Chain(a, a[w].child) then a[i].(ret := Some(w)) else a[i]
  {
    forall i | 0 <= i < |a|
      ensures r[i] == if i in Chain(a, a[w].child) then a[i].(ret := Some(w)) else a[i]
    {
      PointReturnsAt(a, a, a[w].child, w, i);
    }
    assert w !in Chain(a, a[w].child);
  }

  /** `r` after pointing the `return` of every fiber of the chain at `c`
      (a chain of `a`) at `w`, in chain order. */
  function PointReturns(a: Arena, r: Arena, c: Option<Id>, w: Id): (r': Arena)
    requires WellFormed(a) && InRange(a, c) && |r| == |a|
    ensures |r'| == |a|
    decreases if c.Some? then |a| - c.value else 0
  {
    if c.None? then r
    else PointReturns(a, r[c.value := r[c.value].(ret := Some(w))], a[c.value].sibling, w)
  }

  lemma {:induction false} PointReturnsAt(a: Arena, r: Arena, c: Option<Id>, w: Id, i: Id)
    requires WellFormed(a) && InRange(a, c) && |r| == |a| && i < |a|
    ensures PointReturns(a, r, c, w)[i] == if i in Chain(a, c) then r[i].(ret := Some(w)) else r[i]
    decreases if c.Some? then |a| - c.value else 0
  {
    if c.Some? {
      var x := c.value;
      PointReturnsAt(a, r[x := r[x].(ret := Some(w))], a[x].sibling, w, i);
    }
  }

  /** Fiber `w` is completed on the mount path: it has no committed fiber, or
      no host instance yet. */
  predicate IsMount(a: Arena, w: Id)
    requires w < |a|
  {
    a[w].alternate.None? || a[w].stateNode.NoStateNode?
  }

  /** The frontiers of the later siblings of each fiber on the path `q`. */
  ghost function RestHosts(a: Arena, q: seq<Id>): seq<Id>
    requires WellFormed(a) && forall k | 0 <= k < |q| :: q[k] < |a|
    decreases |q|
  {
    if |q| == 0 then [] else HostNodesChain(a, a[q[0]].sibling) + RestHosts(a, q[1..])
  }

  /** The number of fibers the frontier walk steps on within `x`'s subtree. */
  ghost function Steps(a: Arena, x: Id): nat
    requires WellFormed(a) && x < |a|
    decreases |a| - x, 0
  {
    1 + if IsHost(a[x].tag) then 0 else StepsChain(a, a[x].child)
  }

  ghost function StepsChain(a: Arena, c: Option<Id>): nat
    requires WellFormed(a) && InRange(a, c)
    decreases if c.Some? then |a| - c.value else 0, 1
  {
    if c.None? then 0 else Steps(a, c.value) + StepsChain(a, a[c.value].sibling)
  }

  ghost function RestSteps(a: Arena, q: seq<Id>): nat
    requires WellFormed(a) && forall k | 0 <= k < |q| :: q[k] < |a|
    decreases |q|
  {
    if |q| == 0 then 0 else StepsChain(a, a[q[0]].sibling) + RestSteps(a, q[1..])
  }

  /** `q` is a `return` path from `q[0]` up to a child of `w`. */
  ghost predicate PathToTop(a: Arena, q: seq<Id>, w: Id)
    requires w < |a|
  {
    && |q| >= 1
    && (forall k | 0 <= k < |q| :: w < q[k] < |a|)
    && (forall k | 0 <= k < |q| - 1 :: a[q[k]].ret == Some(q[k + 1]))
    && a[q[|q| - 1]].ret == Some(w)
  }

  /** The walk is about to visit `q[0]`: `done` has been appended, and the
      frontier of `q[0]` and of the later siblings along the path remain. */
  ghost predicate FrontierVisitInv(a: Arena, w: Id, total: seq<Id>, done: seq<Id>, q: seq<Id>)
  {
    && ReturnsConsistent(a) && w < |a| && PathToTop(a, q, w)
    && (forall k | 0 <= k < |done| :: done[k] < |a|)
    && total == done + HostNodes(a, q[0]) + RestHosts(a, q)
  }

  /** The walk has finished the subtree of `q[0]`: only the frontiers of the
      later siblings along the path remain. */
  ghost predicate FrontierClimbInv(a: Arena, w: Id, total: seq<Id>, done: seq<Id>, q: seq<Id>)
  {
    && ReturnsConsistent(a) && w < |a| && PathToTop(a, q, w)
    && (forall k | 0 <= k < |done| :: done[k] < |a|)
    && total == done + RestHosts(a, q)
  }

  /** What is left to step on before the walk ends. */
  ghost function Measure(a: Arena, w: Id, q: seq<Id>): nat
    requires ReturnsConsistent(a) && w < |a| && PathToTop(a, q, w)
  {
    Steps(a, q[0]) + RestSteps(a, q)
  }

  lemma VisitStart(a: Arena, w: Id)
    requires ReturnsConsistent(a) && w < |a|
    ensures a[w].child.None? ==> HostNodesChain(a, a[w].child) == []
    ensures a[w].child.Some? ==>
              FrontierVisitInv(a, w, HostNodesChain(a, a[w].child), [], [a[w].child.value])
  {
    assert ReturnOk(a, w);
    if a[w].child.Some? {
      var c := a[w].child.value;
      assert RestHosts(a, [c]) == HostNodesChain(a, a[c].sibling) + RestHosts(a, []);
    }
  }

  /** Stepping down into the first child of a non-host fiber. */
  lemma VisitDescend(a: Arena, w: Id, total: seq<Id>, done: seq<Id>, q: seq<Id>)
    requires FrontierVisitInv(a, w, total, done, q)
    requires !IsHost(a[q[0]].tag) && a[q[0]].child.Some?
    ensures a[a[q[0]].child.value].ret == Some(q[0])
    ensures FrontierVisitInv(a, w, total, done, [a[q[0]].child.value] + q)
    ensures Measure(a, w, [a[q[0]].child.value] + q) < Measure(a, w, q)
  {
    var n := q[0];
    var c := a[n].child.value;
    assert ReturnOk(a, n);
    var q' := [c] + q;
    assert q'[1..] == q;
    assert PathToTop(a, q', w) by {
      forall k | 0 <= k < |q'| - 1 ensures a[q'[k]].ret == Some(q'[k + 1]) {
        if k > 0 {
          assert q'[k] == q[k - 1] && q'[k + 1] == q[k];
        }
      }
    }
    assert HostNodes(a, n) == HostNodes(a, c) + HostNodesChain(a, a[c].sibling);
    assert RestHosts(a, q') == HostNodesChain(a, a[c].sibling) + RestHosts(a, q);
    assert Steps(a, n) == 1 + Steps(a, c) + StepsChain(a, a[c].sibling);
    assert RestSteps(a, q') == StepsChain(a, a[c].sibling) + RestSteps(a, q);
  }

  /** Visiting a host fiber appends it and finishes its subtree; visiting a
      non-host fiber without children finishes it too. */
  lemma VisitFinish(a: Arena, w: Id, total: seq<Id>, done: seq<Id>, q: seq<Id>)
    requires FrontierVisitInv(a, w, total, done, q)
    requires IsHost(a[q[0]].tag) || a[q[0]].child.None?
    ensures IsHost(a[q[0]].tag) ==> FrontierClimbInv(a, w, total, done + [q[0]], q)
    ensures !IsHost(a[q[0]].tag) ==> FrontierClimbInv(a, w, total, done, q)
    ensures RestSteps(a, q) < Measure(a, w, q)
  {
    if !IsHost(a[q[0]].tag) {
      assert HostNodes(a, q[0]) == HostNodesChain(a, None) == [];
    }
  }

  /** Climbing from a last child to its parent, below `w`. */
  lemma ClimbUp(a: Arena, w: Id, total: seq<Id>, done: seq<Id>, q: seq<Id>)
    requires FrontierClimbInv(a, w, total, done, q)
    requires a[q[0]].sibling.None? && a[q[0]].ret != Some(w)
    ensures |q| > 1 && a[q[0]].ret == Some(q[1])
    ensures FrontierClimbInv(a, w, total, done, q[1..])
    ensures RestSteps(a, q[1..]) == RestSteps(a, q)
  {
    var q' := q[1..];
    forall k | 0 <= k < |q'| - 1 ensures a[q'[k]].ret == Some(q'[k + 1]) {
      assert q'[k] == q[k + 1] && q'[k + 1] == q[k + 2];
    }
  }

  /** Climbing stops at the last child of `w`: everything has been appended. */
  lemma ClimbDone(a: Arena, w: Id, total: seq<Id>, done: seq<Id>, q: seq<Id>)
    requires FrontierClimbInv(a, w, total, done, q)
    requires a[q[0]].sibling.None? && (a[q[0]].ret.None? || a[q[0]].ret == Some(w))
    ensures done == total
  {
    assert RestHosts(a, q[1..]) == [];
  }

  /** Moving on to the next sibling. */
  lemma ClimbAcross(a: Arena, w: Id, total: seq<Id>, done: seq<Id>, q: seq<Id>)
    requires FrontierClimbInv(a, w, total, done, q)
    requires a[q[0]].sibling.Some?
    ensures a[a[q[0]].sibling.value].ret == a[q[0]].ret
    ensures FrontierVisitInv(a, w, total, done, [a[q[0]].sibling.value] + q[1..])
    ensures Measure(a, w, [a[q[0]].sibling.value] + q[1..]) == RestSteps(a, q)
  {
    var s := a[q[0]].sibling.value;
    SiblingPath(a, w, q);
    RestAcross(a, q);
    assert total == done + HostNodes(a, s) + RestHosts(a, [s] + q[1..]);
  }

  /** Replacing the head of a path by its next sibling gives a path again. */
  lemma SiblingPath(a: Arena, w: Id, q: seq<Id>)
    requires ReturnsConsistent(a) && w < |a| && PathToTop(a, q, w)
    requires a[q[0]].sibling.Some?
    ensures a[a[q[0]].sibling.value].ret == a[q[0]].ret
    ensures PathToTop(a, [a[q[0]].sibling.value] + q[1..], w)
  {
    var n := q[0];
    var s := a[n].sibling.value;
    assert ReturnOk(a, n);
    var q' := [s] + q[1..];
    forall k | 0 <= k < |q'| - 1 ensures a[q'[k]].ret == Some(q'[k + 1]) {
      if k > 0 {
        assert q'[k] == q[k] && q'[k + 1] == q[k + 1];
      } else {
        assert a[n].ret == Some(q[1]);
      }
    }
  }

  /** The work left after `q[0]` is its next sibling's subtree and what is
      left after that sibling. */
  lemma RestAcross(a: Arena, q: seq<Id>)
    requires WellFormed(a) && |q| >= 1 && forall k | 0 <= k < |q| :: q[k] < |a|
    requires a[q[0]].sibling.Some?
    ensures var s := a[q[0]].sibling.value;
      && RestHosts(a, q) == HostNodes(a, s) + RestHosts(a, [s] + q[1..])
      && RestSteps(a, q) == Steps(a, s) + RestSteps(a, [s] + q[1..])
  {
    var s := a[q[0]].sibling.value;
    var q' := [s] + q[1..];
    assert q'[1..] == q[1..];
    assert q'[0] == s;
    ConcatAssoc(HostNodes(a, s), HostNodesChain(a, a[s].sibling), RestHosts(a, q[1..]));
  }

  /** Writing a fiber's own `return` back into it changes nothing. */
  lemma RewriteSameReturn(a: Arena, c: Id, p: Option<Id>)
    requires c < |a| && a[c].ret == p
    ensures a[c := a[c].(ret := p)] == a
  {
  }

  lemma InitialAppendsSnoc(a: Arena, parent: Instance, done: seq<Id>, n: Id)
    requires n < |a| && forall k | 0 <= k < |done| :: done[k] < |a|
    ensures InitialAppends(a, parent, done + [n])
            == InitialAppends(a, parent, done) + [AppendInitialChild(parent, a[n].stateNode)]
  {
  }

  /** `appendAllChildren`: the iterative walk below `w` that appends every
      nearest host instance into the new instance `parent`, left to right. On a
      consistent arena its rewrites of `return` pointers change nothing. */
  method AppendAllChildren(a: Arena, parent: Instance, w: Id) returns (r: Arena, ops: seq<HostOp>)
    requires ReturnsConsistent(a) && w < |a|
    ensures r == a
    ensures ops == InitialAppends(a, parent, HostNodesChain(a, a[w].child))
  {
    r := a;
    ops := [];
    VisitStart(a, w);
    ghost var total := HostNodesChain(a, a[w].child);
    ghost var done: seq<Id> := [];
    var node := r[w].child;
    ghost var q: seq<Id> := if node.Some? then [node.value] else [];
    while node.Some?
      invariant r == a
      invariant forall k | 0 <= k < |done| :: done[k] < |a|
      invariant ops == InitialAppends(a, parent, done)
      invariant node.Some? ==> FrontierVisitInv(a, w, total, done, q) && q[0] == node.value
      invariant node.None? ==> done == total
      decreases if node.Some? then Measure(a, w, q) else 0
    {
      var n := node.value;
      ghost var measure := Measure(a, w, q);
      if IsHost(r[n].tag) {
        VisitFinish(a, w, total, done, q);
        InitialAppendsSnoc(a, parent, done, n);
        ops := ops + [AppendInitialChild(parent, r[n].stateNode)];
        done := done + [n];
      } else if r[n].child.Some? {
        VisitDescend(a, w, total, done, q);
        var c := r[n].child.value;
        RewriteSameReturn(a, c, Some(n));
        r := r[c := r[c].(ret := Some(n))];
        node := Some(c);
        q := [c] + q;
        continue;
      } else {
        VisitFinish(a, w, total, done, q);
      }
      while r[n].sibling.None?
        invariant r == a
        invariant FrontierClimbInv(a, w, total, done, q) && q[0] == n
        invariant RestSteps(a, q) < measure
        decreases |q|
      {
        if r[n].ret.None? || r[n].ret == Some(w) {
          ClimbDone(a, w, total, done, q);
          return;
        }
        ClimbUp(a, w, total, done, q);
        n := r[n].ret.value;
        q := q[1..];
      }
      ClimbAcross(a, w, total, done, q);
      var s := r[n].sibling.value;
      RewriteSameReturn(a, s, a[n].ret);
      r := r[s := r[s].(ret := r[n].ret)];
      node := Some(s);
      q := [s] + q[1..];
    }
  }

  /** `workInProgress.stateNode = instance` on a host fiber. */
  function Mounted(a: Arena, w: Id, instance: Instance): (r: Arena)
    requires WellFormed(a) && w < |a| && IsHost(a[w].tag)
    ensures WellFormed(r) && |r| == |a|
    ensures r[w] == a[w].(stateNode := HostInstance(instance))
    ensures forall i | 0 <= i < |a| && i != w :: r[i] == a[i]
  {
    var r := a[w := a[w].(stateNode := HostInstance(instance))];
    assert SameLinks(a, r);
    SameLinksKeepShape(a, r);
    r
  }

  /** `completeWork` on fiber `w`. `created` is the instance the host returns
      for `createInstance`/`createTextInstance` on the mount path; host calls
      are returned in order in `ops`. */
  method CompleteWork(a: Arena, w: Id, created: Instance) returns (r: Arena, ops: seq<HostOp>)
    requires WellFormed(a) && w < |a|
    requires a[w].tag.HostComponent? && IsMount(a, w) ==> ReturnsConsistent(a)
    ensures |r| == |a|
    ensures a[w].tag.HostRoot? || a[w].tag.FunctionComponent? || a[w].tag.Fragment? ==>
              ops == [] && Bubbled(a, r, w)
    ensures a[w].tag.UnknownTag? ==> r == a && ops == []
    ensures IsHost(a[w].tag) && IsMount(a, w) ==>
              r[w].stateNode == HostInstance(created)
              && Bubbled(Mounted(a, w, created), r, w)
    ensures a[w].tag.HostComponent? && IsMount(a, w) ==>
              ops == [CreateInstance(created, a[w].elementType, a[w].pendingProps)]
                     + InitialAppends(a, created, HostNodesChain(a, a[w].child))
    ensures a[w].tag.HostText? && IsMount(a, w) ==>
              ops == [CreateTextInstance(created, a[w].pendingProps.content)]
    ensures a[w].tag.HostComponent? && !IsMount(a, w) ==>
              ops == [] && Bubbled(UpdateHostComponent(a, a[w].alternate.value, w), r, w)
    ensures a[w].tag.HostText? && !IsMount(a, w) ==>
              ops == [] && Bubbled(UpdateHostText(a, a[w].alternate.value, w), r, w)
  {
    var newProps := a[w].pendingProps;
    var current := a[w].alternate;
    match a[w].tag
    case HostRoot | FunctionComponent | Fragment =>
      r := BubbleProperties(a, w);
      ops := [];
    case HostComponent =>
      if current.Some? && !a[w].stateNode.NoStateNode? {
        r := UpdateHostComponent(a, current.value, w);
        SameLinksKeepShape(a, r);
        ops := [];
      } else {
        var instance := created;
        ops := [CreateInstance(instance, a[w].elementType, newProps)];
        var appended;
        r, appended := AppendAllChildren(a, instance, w);
        ops := ops + appended;
        r := Mounted(r, w, instance);
      }
      r := BubbleProperties(r, w);
    case HostText =>
      if current.Some? && !a[w].stateNode.NoStateNode? {
        r := UpdateHostText(a, current.value, w);
        SameLinksKeepShape(a, r);
        ops := [];
      } else {
        var instance := created;
        ops := [CreateTextInstance(instance, newProps.content)];
        r := Mounted(a, w, instance);
      }
      r := BubbleProperties(r, w);
    case UnknownTag(_) =>
      r := a;
      ops := [];
  }
}
