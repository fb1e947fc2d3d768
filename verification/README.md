# mini-react reconciler core, modelled in Dafny

This project models the parts of mini-react's reconciler that finish and commit a render, plus its JSX element factory:

- **Flag algebra** (`fiber_flags.dfy`). These are the side-effect flags a fiber carries: `PerformedWork`, `Placement`, `Update`, `ChildDeletion` and `MutationMask`.
- **Fiber arena** (`fiber.dfy`). The fibers of both tree buffers live in one sequence. `child`, `sibling`, `return` and `alternate` are indices into it. `WellFormed` says a child or next sibling comes later in the arena and a parent earlier, which makes every pointer walk terminate. `ReturnsConsistent` says the `return` of every child, and of every next sibling, points at the parent. It is a precondition of the model. The source itself re-points `return` only inside the subtree it completes (completeWork.ts:106, :121 and :141).
- **Host frontier** (`host_frontier.dfy`). These are the nearest fibers below a fiber that own a host instance, left to right. Both `appendAllChildren` and `appendPlacementNodeIntoContainer` append exactly this sequence, so it is defined once, recursively, and both walks are proved against it.
- **Completion pass** (`complete_work.dfy`). This is `completeWork` and its helpers:
  - Update marking compares text content, or the identity of the props object.
  - On mount, it creates the host instance and appends the child frontier into it.
  - It bubbles the children's flags into `subtreeFlags` and re-points the children's `return`.
- **Commit mutation phase** (`commit_work.dfy`). This is the iterative depth-first walk of `commitMutationEffects`:
  - It enters a subtree only when its `subtreeFlags` carry a mutation bit.
  - It handles fibers in post-order.
  - It performs a Placement by appending the fiber's host frontier into the nearest host parent, then clears the mutation bits.
  - The walk is a method with loop invariants, proved equal to a recursive post-order reference, `PostOrder` folded with `HandleAll`.
- **Element factory** (`jsx.dfy`). This is `jsx` and `jsxDEV`:
  - `key` and `ref` are split out of the config.
  - `'' + key` is applied to the key.
  - Own properties are copied into `props`.
  - The children are normalised.

The host environment is not modelled. Host instances are opaque numbers, and every host call (`createInstance`, `createTextInstance`, `appendInitialChild`, `appendChildToContainer`) is returned as a `HostOp` in a log. The instance a creation call would return is a parameter of `CompleteWork`.

Flags are a set of bits (`set<Bit>`), not a number. Union is `|`, intersection is `&` and difference is `& ~`. `FiberFlags.Bits` maps a set to the number the source holds. The lemmas `ConstantsMatchSource`, `BitsOfOperations` and `BitsInjective` show that the constants and the three operations are exactly the source's. Sets keep the arena-wide proofs small for the solver.

## Model

| member | source | states |
|---|---|---|
| `FiberFlags.ConstantsMatchSource` | packages/react-reconciler/src/fiberFlags.ts:4-10 | `NoFlags` is 0; `PerformedWork`, `Placement`, `Update`, `ChildDeletion` are 1, 2, 4, 8; `MutationMask` is 14, i.e. `Placement \| Update \| ChildDeletion` |
| `FiberFlags.FlagsAreDistinctBits` | packages/react-reconciler/src/fiberFlags.ts:5-8 | each named flag is a single nonzero bit, and any two different flags AND to zero |
| `FiberFlags.MutationMaskIsTheThreeKinds` | packages/react-reconciler/src/fiberFlags.ts:10 | a flag set meets `MutationMask` iff it has Placement, Update or ChildDeletion; `PerformedWork & MutationMask` is empty |
| `FiberFlags.BitsOfOperations` | packages/react-reconciler/src/fiberFlags.ts:2-10 | union, intersection and difference of flag sets are `\|`, `&` and `& ~` of their numbers, and a nonempty intersection is a nonzero `&` |
| `FiberFlags.BitsInjective` | packages/react-reconciler/src/fiberFlags.ts:2-10 | two flag sets with the same number are the same set |
| `FiberFlags.Clear` | packages/react-reconciler/src/commitWork.ts:62 | `f &= ~bits` leaves none of `bits`, adds nothing, and loses nothing outside `bits` |
| `FiberFlags.ClearingAllMutationKinds` | packages/react-reconciler/src/commitWork.ts:60-71 | clearing Placement, Update and ChildDeletion one after the other is clearing `MutationMask` |
| `HostFrontier.ChildFrontierIsNearestHosts` | packages/react-reconciler/src/completeWork.ts:98-124 | the frontier below a fiber is exactly its nearest host fibers. No fiber in it repeats, and each is a host fiber with only non-host fibers between it and the fiber. Conversely, every host fiber that a walk from the first child reaches is in it; such a walk moves to a next sibling, or to a first child from a non-host fiber only |
| `CompleteWork.MarkUpdate` | packages/react-reconciler/src/completeWork.ts:87-89 | the result has Update, and every other bit is as before |
| `CompleteWork.UpdateHostText` | packages/react-reconciler/src/completeWork.ts:68-74 | Update is added (other bits kept) iff the committed `content` is `!==` the new one, with a number and a string always different; otherwise the arena is unchanged; only this fiber's flags can change |
| `CompleteWork.UpdateHostComponent` | packages/react-reconciler/src/completeWork.ts:76-84 | Update is added iff the new props object is not the identical committed one (identity, not contents); otherwise the arena is unchanged |
| `CompleteWork.ChildrenFlagsContainEachChild` | packages/react-reconciler/src/completeWork.ts:135-141 | the accumulated flags contain `flags \| subtreeFlags` of every child |
| `CompleteWork.ChildrenFlagsExact` | packages/react-reconciler/src/completeWork.ts:135-141 | a bit is accumulated iff some child has it in `flags \| subtreeFlags` |
| `CompleteWork.BubbleProperties` | packages/react-reconciler/src/completeWork.ts:132-144 | the fiber keeps its old `subtreeFlags` and gains the children's flags; each child gets the fiber as `return` and keeps its flags; no other fiber changes |
| `CompleteWork.AppendAllChildren` | packages/react-reconciler/src/completeWork.ts:98-124 | the walk appends exactly the host frontier of the children, left to right, each once, without going below a host fiber; its `return` rewrites leave a consistent arena unchanged |
| `CompleteWork.CompleteWork` | packages/react-reconciler/src/completeWork.ts:20-66 | root, function and fragment fibers only bubble; an unknown tag changes nothing; a host fiber on mount gets the created instance as `stateNode` (a component after appending its child frontier); on update only the Update check runs; host calls are as listed |
| `CommitWork.GetHostParent` | packages/react-reconciler/src/commitWork.ts:86-105 | the search starts at `return`, never the fiber itself; the first HostRoot or HostComponent on the chain decides: root container, or the component's instance; null when there is none |
| `CommitWork.FindHostParentFirst` | packages/react-reconciler/src/commitWork.ts:88-101 | when position k of the `return` chain is the first host parent, the loop answers with its container |
| `CommitWork.FindHostParentNone` | packages/react-reconciler/src/commitWork.ts:88-104 | a `return` chain with no host parent gives null |
| `CommitWork.AppendPlacementNode` | packages/react-reconciler/src/commitWork.ts:107-124 | one `appendChildToContainer` per fiber of the host frontier, in order: a host fiber appends only itself |
| `CommitWork.AppendPlacementSiblings` | packages/react-reconciler/src/commitWork.ts:113-120 | the sibling loop appends the frontiers of the remaining siblings, in order |
| `CommitWork.CommitPlacement` | packages/react-reconciler/src/commitWork.ts:75-83 | nothing happens without a host parent; otherwise the fiber's host frontier is appended to it |
| `CommitWork.CommitMutationEffectsOnFiber` | packages/react-reconciler/src/commitWork.ts:58-72 | the fiber's flags lose exactly the mutation bits (PerformedWork kept); no other fiber changes; the placement runs iff Placement was set on entry; Update and ChildDeletion make no host call |
| `CommitWork.HandleAllArena` | packages/react-reconciler/src/commitWork.ts:41-53 | after handling a sequence of fibers, exactly those fibers have lost their mutation bits and nothing else changed |
| `CommitWork.PlacementIgnoresFlags` | packages/react-reconciler/src/commitWork.ts:75-124 | a placement reads no fiber's flags, so clearing flags never changes a later placement |
| `CommitWork.HandleAllLog` | packages/react-reconciler/src/commitWork.ts:58-83 | handling distinct fibers in order makes the placements of those with Placement, in that order, as computed on the tree before the commit |
| `CommitWork.PostOrderReached` | packages/react-reconciler/src/commitWork.ts:29-38 | every handled fiber is the root or is reached through parents whose `subtreeFlags` have a mutation bit and that have a child |
| `CommitWork.PostOrderChildrenFirst` | packages/react-reconciler/src/commitWork.ts:41-55 | the handling order never puts a fiber after a fiber it lies below, so each fiber is handled once and after its handled descendants |
| `CommitWork.CommitOutcome` | packages/react-reconciler/src/commitWork.ts:25-56 | the whole commit clears exactly the handled fibers' mutation bits, leaves every unreached fiber untouched, and makes the placements in post-order |
| `CommitWork.CommitUp` | packages/react-reconciler/src/commitWork.ts:41-53 | the `up:` loop handles at least one fiber, then stops at a next sibling to visit or finishes the walk above the root |
| `CommitWork.CommitWalk` | packages/react-reconciler/src/commitWork.ts:27-55 | the descending loop, with the `up:` loop inside it, terminates and handles exactly the fibers of `PostOrder` of the root, in that order |
| `CommitWork.CommitMutationEffects` | packages/react-reconciler/src/commitWork.ts:25-56 | the iterative walk terminates and equals handling `PostOrder` of the root; handled fibers lose their mutation bits, pruned subtrees are untouched, and the host calls are the placements in post-order |
| `Jsx.ScanKeyMeaning` | packages/react/src/jsx.ts:50-57 | `key` is `'' + v` for the config's `key` entry `v` when it is defined (even inherited), and null when there is none |
| `Jsx.ScanRefMeaning` | packages/react/src/jsx.ts:58-63 | `ref` is the config's defined `ref` entry, and null when there is none |
| `Jsx.ScanPropsMeaning` | packages/react/src/jsx.ts:64-66 | `props` holds exactly the own entries other than `key`, `ref` and `__proto__`, with their values; an own `__proto__` creates no property |
| `Jsx.ScanProtoMeaning` | packages/react/src/jsx.ts:49-66 | `props`, created as `{}`, gets a new prototype exactly when the config has an own `__proto__` entry holding an object, an array or null, and that value becomes the prototype; otherwise it keeps `Object.prototype` |
| `Jsx.NumberKeyRoundTrip` | packages/react/src/jsx.ts:54 | a numeric key is written in decimal and reads back as the same number |
| `Jsx.Jsx` | packages/react/src/jsx.ts:46-77 | the element holds the marker and the type; key, ref, own props and the prototype of `props` as above, with no own `__proto__` in `props`; one child is `props.children` itself, several are the sequence in order and override `config.children`; no children leaves `config.children` |
| `Jsx.JsxDev` | packages/react/src/jsx.ts:95-118 | `jsxDEV(type, config)` is the same element as `jsx(type, config)` with no children |

## Left out

- `beginWork` and the child diff are not part of this model. That covers `reconcileChildFibers`/`mountChildFibers`, `processUpdateQueue` and `renderWithHooks`, whose code is not available. The arena a pass receives stands for the render phase's result.
- The host environment (`hostConfig.ts`) is not modelled. Its DOM calls are recorded as `HostOp` values, and instances are opaque numbers.
- `updateFiberProps` (completeWork.ts:83) is an event-system side effect. It is treated as a no-op.
- Update and ChildDeletion have no host effects in the commit. The source only clears their bits (those are stubs there), and so does the model.
- `__DEV__` logging and warnings are left out, and so are `root.ts`, the build scripts and the demos.
- CompleteWork: the return value is not modelled, because `completeWork` returns null on every path.
- CompleteWork: the check `node == workInProgress` at completeWork.ts:110-112 is not modelled. It can never succeed: at that point `node` is always a fiber strictly below `workInProgress`.
- CompleteWork: on the host component mount path it requires `ReturnsConsistent`, like `AppendAllChildren`.
- AppendAllChildren: requires `ReturnsConsistent`, which is stronger than the source needs. The source only needs `workInProgress.child.return` to point at the fiber. The walk re-points every other `return` it later climbs: a first child's at completeWork.ts:106 and a next sibling's at completeWork.ts:121. Under the stronger condition those rewrites change nothing, which is what `r == a` states.
- CommitMutationEffects: requires a consistent arena and a root with no `return` and no sibling, which is the HostRoot fiber the source passes.
- CommitMutationEffects: proves that only reached fibers are handled, not that every reached fiber is. The converse needs every `return` pointer to be matched by a child/sibling link, and the arena does not assume that.
- Flags are a set of the four bits the source defines, not a 32-bit number. `Bits` gives the number, and the lemmas above tie the two together. No other bit exists in the source.
- A text fiber's `content` is a string, an integer or undefined. Fractional numbers and other values are not modelled.
- Jsx: numbers are integers, written in plain decimal. Floats, `NaN`, `Infinity`, `-0` and the exponent form JavaScript uses from 10^21 on are not modelled.
- Jsx: a symbol key, for which `'' + key` throws a TypeError, is not modelled.
- Jsx: objects are plain objects, converted as `[object Object]`. Functions and objects with their own `toString`/`valueOf` are not modelled.
- Jsx: the config is the sequence of its enumerable properties in `for ... in` order. A null or undefined config is the empty sequence, and non-enumerable properties are absent.
- Jsx: `props` is a map, so the insertion order of its properties is not modelled.
- Jsx: when an own `__proto__` entry gives `props` a new prototype, the model records that prototype but not the properties it supplies. Objects are opaque, so a later read of, say, `props.children` that falls through to the prototype is not modelled.
