# ItemContainer, modelled in Dafny

This project models `ItemContainer`, the leaf pane of a golden-layout docking
layout. The model covers:

- the pane's own state: its pixel size, its hidden flag, its title and its
  component config;
- the events it emits to its subscribers;
- the calls it makes on the content item above it;
- the content-driven resize `setSize`. This resize walks up the tree to the
  nearest row or column. It gives the child on the path a new percentage
  share, and it spreads the difference evenly over that child's siblings.

Modules:

- `Wrappers`: `Option`, which stands for JavaScript's `null`.
- `Redistribution`: the arithmetic of `setSize`, on percentage shares held as
  reals.
  - `NewShare` computes the on-path child's new share.
  - `Redistribute` computes all the shares after the resize.
  - Lemmas prove the 50/30/20 → 40/35/25 example and that the total is kept.
  - A single child is handled separately, and so is a child whose share is 0.
- `Layout`: the part of the layout tree the container talks to.
  - A node (`LayoutNode`) has a kind, a parent pointer, ordered children and a
    config with `width` and `height` shares.
  - `FindRowOrColumn` is the upward search of `setSize`, taken as a function
    over the kinds of the ancestor chain. Three lemmas characterise each of its
    outcomes.
- `Container`: the `ItemContainer` class. Its own fields are updated in place
  by `Hide`, `Show`, `SetSizeFromHost` (`_$setSize`), `SetState` and
  `ExtendState`. `SetSize` updates, in place, the configs of the children of
  the row or column it finds, and nothing else of them.
  - `trace` is one ordered log of what the container does. It holds the events
    it emits and the calls it makes on the tree: `parent.close()`,
    `parent.setTitle`, `parent.emitBubblingEvent` and `callDownwards`.
  - `SetSize` takes the chain of ancestors as a ghost parameter.
  - `WalkUp` runs the same `while` loop over parent pointers as the source, and
    is proved equal to `FindRowOrColumn`.
  - `RewriteShares` runs the `for` loop over the siblings, and is proved equal
    to `Redistribute`.

Where the code and the description of `setSize` differ, the model follows the
code:

- A container whose parent is the root does not return `false`. The loop steps
  past the root to its null parent and reads `isRoot` of null, which throws a
  TypeError. The model's outcome is `Threw`, through `Detached`.
- A container whose parent is itself the row or column also throws. The code
  reads `config` of the container, which has none.
- With a single child, the code does not set that child to 100. It stores
  `newSize / ownPixels * oldShare`. `SingleChildTotal` shows that the total
  stays 100 only when the size does not change.
- `setSize` does not make the shares sum to 100. It keeps whatever total they
  had (`RedistributePreservesTotal`).

## Model

| member | source | states |
|---|---|---|
| Container.ItemContainer.constructor | client/golden-layout/js_es6/container/ItemContainer.js:4-15 | width and height start null, the title is the config's component name, the container is not hidden, the config and parent are those given, and no event or call has been made yet |
| Container.ItemContainer.Hide | client/golden-layout/js_es6/container/ItemContainer.js:53-57 | emits exactly one `hide` and leaves the container hidden; there is no guard, so a repeat emits again |
| Container.ItemContainer.Show | client/golden-layout/js_es6/container/ItemContainer.js:67-75 | emits `show`, leaves the container visible, then emits `shown` exactly when height or width is not 0 (null counts as not 0) |
| Container.HideThenShow | client/golden-layout/js_es6/container/ItemContainer.js:53-75 | hide followed by show leaves the container visible, with the events hide, show and, if the size is usable, shown |
| Container.ItemContainer.SetSizeFromHost | client/golden-layout/js_es6/container/ItemContainer.js:203-211 | afterwards both dimensions hold the new values; one `resize` is emitted if either dimension changed, and nothing if both were already equal |
| Container.SetSizeFromHostTwice | client/golden-layout/js_es6/container/ItemContainer.js:203-211 | two host resizes with the same arguments emit at most one `resize` between them |
| Container.ItemContainer.WalkUp | client/golden-layout/js_es6/container/ItemContainer.js:92-112 | the parent-pointer loop ends exactly as the search `FindRowOrColumn` over the ancestors' kinds; when it finds a row or column, it returns that ancestor and the child on the path (the container itself when the parent is the row or column) |
| Container.ItemContainer.SetSize | client/golden-layout/js_es6/container/ItemContainer.js:91-132 | returns false and changes no share and makes no call when the walk meets the root first. It throws when the walk runs past a null parent, or when the parent is itself the row or column. Otherwise it returns true, keeps the children list, sets the children's shares along the row's or column's axis to `Redistribute` of the old shares, leaves the other axis alone, and asks the row or column to `callDownwards('setSize')`. In every case it changes no field of any node except the configs of the found row's or column's children |
| Container.SetSizeKeepsChain | client/golden-layout/js_es6/container/ItemContainer.js:91-132 | `setSize` writes only the children's size configs, so afterwards the container is still in the same well-formed chain, and that chain can still be resized |
| Container.ItemContainer.ResizeWithin | client/golden-layout/js_es6/container/ItemContainer.js:114-131 | picks height for a column and width for a row, gives the on-path child `NewShare` of its old share and every sibling the same delta, so the shares along that axis become `Redistribute` of the old ones, the other axis is unchanged, and one `callDownwards('setSize')` is requested |
| Container.RewriteShares | client/golden-layout/js_es6/container/ItemContainer.js:121-127 | the loop over the children sets the on-path child to the new share and adds delta to every other child along one axis, elementwise equal to `Redistribute`, leaving the other axis and the children lists unchanged |
| Container.ItemContainer.Close | client/golden-layout/js_es6/container/ItemContainer.js:138-147 | when the config is closable, the trace gains exactly `close` emitted followed by the request that the parent close, in that order; otherwise the trace is unchanged |
| Container.ItemContainer.GetState | client/golden-layout/js_es6/container/ItemContainer.js:155-157 | returns the component state stored in the config |
| Container.ItemContainer.SetState | client/golden-layout/js_es6/container/ItemContainer.js:177-180 | replaces the stored component state and nothing else of the config, and bubbles exactly one `stateChanged` from the parent |
| Container.ItemContainer.ExtendState | client/golden-layout/js_es6/container/ItemContainer.js:167-169 | stores the merge of the current state with the argument, through one `setState` call and so one `stateChanged` bubble |
| Container.ItemContainer.SetTitle | client/golden-layout/js_es6/container/ItemContainer.js:188-190 | asks the parent to set the title, once, and changes nothing of the container's own |
| Layout.ItemConfig.With | client/golden-layout/js_es6/container/ItemContainer.js:123-125 | writing one size key of a child's config sets that key and leaves the other one as it was |
| Layout.WalkFrom | client/golden-layout/js_es6/container/ItemContainer.js:101-112 | a search that stops at an ancestor stops at a row or column at or above where it stands |
| Layout.FindRowOrColumn | client/golden-layout/js_es6/container/ItemContainer.js:101-112 | a search from the parent that stops at an ancestor stops at a row or column in the chain |
| Layout.FindRowOrColumnFound | client/golden-layout/js_es6/container/ItemContainer.js:101-112 | the search stops at ancestor m if and only if m is a row or column and every ancestor before it is neither a row nor a column, with none of them the root except possibly the parent |
| Layout.FindRowOrColumnRoot | client/golden-layout/js_es6/container/ItemContainer.js:101-111 | the search returns false if and only if, after stepping past the parent, it reaches the root with no row or column passed; the parent itself is never tested for being the root |
| Layout.FindRowOrColumnDetached | client/golden-layout/js_es6/container/ItemContainer.js:101-109 | the search runs off a null parent if and only if no ancestor is a row or column and none above the parent is the root |
| Redistribution.NewShare | client/golden-layout/js_es6/container/ItemContainer.js:117-118 | the new share is the old share scaled by new size over own pixel size: share × ownPixels = newSize × oldShare, which fixes it uniquely and makes a zero share stay 0 |
| Redistribution.Delta | client/golden-layout/js_es6/container/ItemContainer.js:119 | with two or more children, the amount each sibling gains times n − 1 is what the on-path child gave up; with one child it is 0, since the loop never applies it |
| Redistribution.Redistribute | client/golden-layout/js_es6/container/ItemContainer.js:121-127 | the shares after the loop: as many as before, with the on-path child at the new share (the siblings' shift is stated by the lemmas below) |
| Redistribution.ZeroShareChangesNothing | client/golden-layout/js_es6/container/ItemContainer.js:117-127 | when the on-path child's share is 0 (and the own size is not), every share, the child's included, is left as it was |
| Redistribution.RedistributePreservesTotal | client/golden-layout/js_es6/container/ItemContainer.js:119-127 | with two or more children, the sum of the shares after redistribution equals the sum before |
| Redistribution.RedistributeSplitsEvenly | client/golden-layout/js_es6/container/ItemContainer.js:119-127 | the on-path child gets exactly the new share, and each other child changes by the same amount: what the child gave up, divided by n − 1 |
| Redistribution.RedistributeSingleChild | client/golden-layout/js_es6/container/ItemContainer.js:119-127 | with one child, only that child's entry changes: it becomes the new share and no delta is applied |
| Redistribution.SingleChildTotal | client/golden-layout/js_es6/container/ItemContainer.js:117-127 | a single child at 100 keeps a total of 100 if and only if the requested size equals its current pixel size |
| Redistribution.ResizeExample | client/golden-layout/js_es6/container/ItemContainer.js:117-127 | a 500-pixel child at 50 of a 50/30/20 row resized to 400 pixels gets 40, and the shares become 40/35/25 |

## Left out

- DOM work is not modelled:
  - building the element and looking up the content element;
  - `getElement`;
  - `_element.hide()` and `_element.show()`;
  - the `outerWidth`/`outerHeight` writes of `_$setSize`.

  None of it affects the state or the events.
- The click handler that bubbles `custom-selection` is not modelled. It is a
  DOM callback that nothing in the container calls.
- The `layoutManager` field is not modelled. It is stored and never read.
- `EventEmitter` is not modelled. `emit` is recorded in the `trace` log, and
  subscribers are not.
- The tree's `close`, `setTitle`, `emitBubblingEvent` and `callDownwards` are
  only recorded, in `trace`. Their behaviour belongs to the tree, which is
  not part of this model.
- Container.ItemContainer.ExtendState: jQuery's deep `$.extend` is a library routine, so it is a
  `merge` parameter. Its merge policy is not modelled.
- Redistribution.NewShare: shares are reals, not IEEE-754 doubles, so the
  exact sum preservation proved here does not hold for JavaScript numbers.
- Container.ItemContainer.SetSize: two cases are excluded by its `requires`:
  the container's own size along the axis is null, or it is 0. A null size is
  coerced to 0, so the inferred span is 0 (or NaN when the child's share is
  also 0). JavaScript then stores an infinite or NaN share for the child and for
  its siblings, and reals have no such values. An on-path child whose
  share is 0 is modelled, not excluded: its share stays 0 and the siblings
  keep theirs (`ZeroShareChangesNothing`).
- The trace does not record the container's state at the moment of each event.
  So it does not say that `hide` is emitted before the flag is set, or that
  `resize` comes after the new size is stored. It does record the order of
  events and calls relative to each other.
- Container.ItemContainer.SetSize: the tree is assumed well formed, with a
  finite chain of parent pointers ending in null. Each node is among its
  parent's children, and no child appears twice. A cyclic chain would loop
  forever in the source.
- Container.ItemContainer.SetSize: an exception is modelled as the `Threw`
  outcome only. Nothing after the throw point runs, which matches the source,
  where the throw happens before any write.
- The aliasing of `_config` with the layout's own config object is not
  modelled. The container holds its config as a value.
