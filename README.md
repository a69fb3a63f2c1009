# react-mount-node in Dafny

`lib/react-mount-node.ts` mounts a React element tree into a DOM container.
`mountReactNodeSync` picks the container in one of three ways:

- it uses the given `mountNode`;
- otherwise it uses the element `containerId` names;
- otherwise it creates a `div` and inserts it first or last into `parentNode`.

It then replaces any root already mounted on that container. It does this by unmounting the old root and deleting its entry in the module-wide `mountNodesMap`. Next it sets the container's class when `containerClassName` is given. Finally it creates, renders and records a new root. The returned root has one extra operation, `removeRootElement`, which takes the container out of the document. `uuid` builds the generated container ids from a pattern.

The model is in three files:

- `ids.dfy` (module `Ids`): `uuid`, written as a recursive function over the pattern. `Math.random` is modelled as the sequence of nibbles it yields, one per `x` or `y`, consumed left to right. It comes with lemmas on the result's shape and an onto lemma: every string of the pattern's shape is produced by some supply of nibbles.
- `mount.dfy` (module `Mount`): three classes.
  - Elements have an `id`, a `className`, `children` and a `parent`.
  - The document has a `body` and an id index, which is what `getElementById` answers.
  - Roots have their `container`, a `live` flag cleared by `unmount`, and the rendered content.

  The module-wide map is the class `MountRegistry`. It shares a `Log` with the roots it creates: each root operation appends its own entry to the log's ghost list of renderer calls. That log and the registry's ghost set of retired roots carry the invariant: one root per container, the one created last, and every earlier root unmounted. Container resolution is `ResolveContainer`, the registry part is `MountRegistry.Mount`, and `MountRegistry.MountSync` is the whole of `mountReactNodeSync`.
- `scenarios.dfy` (module `Scenarios`): client methods proved from those contracts alone. `CreateContainer` mounts where no container exists yet. `MountTwiceById` uses it and then mounts again with the same `containerId`. `MountThenRemove` uses it and then calls `removeRootElement`.

Modelling conventions:

- JavaScript treats an absent `containerId` or `containerClassName` like the empty string. The model uses `""` for both.
- An absent `parentNode` is `None`, and then `document.body` is used.
- `content` is an abstract type.

## Model

| member | source | states |
|---|---|---|
| Ids.HexDigit | lib/react-mount-node.ts:95 | `v.toString(16)` for a value below 16 is one lower-case hex digit, a decimal digit exactly when the value is below 10 |
| Ids.HexValue | lib/react-mount-node.ts:95 | reading a hex digit back gives the value `HexDigit` writes as that digit |
| Ids.HexValueOfDigit | lib/react-mount-node.ts:95 | the other direction: the digit written for a value reads back as that value, so the two are inverse |
| Ids.VariantBits | lib/react-mount-node.ts:94 | masking `r` with `0x3` and setting bit `0x8`, computed on bits, equals `8 + r % 4`, so it is one of 8..11 |
| Ids.Substitute | lib/react-mount-node.ts:92-95 | the callback turns `x` into the hex digit of its nibble and `y` into one of `8`, `9`, `a`, `b` |
| Ids.Uuid | lib/react-mount-node.ts:91-97 | `uuid(t)` has the length of `t` |
| Ids.UuidAt | lib/react-mount-node.ts:91-95 | position by position, non-placeholders are copied, and the k-th placeholder holds the hex digit of the k-th nibble for `x`, or of its variant form for `y` |
| Ids.UuidFits | lib/react-mount-node.ts:91-95 | every result has the shape of the pattern: same length, other characters unchanged, a hex digit at each `x`, one of `8,9,a,b` at each `y` |
| Ids.UuidOnto | lib/react-mount-node.ts:91-95 | conversely every string of the pattern's shape is the result for the nibbles read off it (`NibblesFor`) |
| Ids.NibblesFor | lib/react-mount-node.ts:93 | the random nibbles that yield a given string: one per placeholder of the pattern |
| Ids.UuidNoPlaceholders | lib/react-mount-node.ts:92 | a pattern without `x` or `y` comes back unchanged |
| Ids.DefaultPatternShape | lib/react-mount-node.ts:91 | with the default `'id-xxxxx'` the result is `id-` and then the five supplied nibbles as hex digits |
| Mount.Element.constructor | lib/react-mount-node.ts:44 | `createElement('div')` gives a detached element with no id, class or children |
| Mount.Without | lib/react-mount-node.ts:72 | a child list with one element taken out holds exactly the other elements |
| Mount.WithoutMiddle | lib/react-mount-node.ts:72 | taking an element out of a list that holds it once keeps the elements before and after it, in their order |
| Mount.Document.Remove | lib/react-mount-node.ts:72 | `remove()` detaches the element from its parent, keeps the parent's other children, and drops the element from the id index; it does nothing to a parentless element; it may change only the index, the element's parent link and the parent's child list |
| Mount.WithoutPrepended | lib/react-mount-node.ts:47-48 | taking out an element inserted at the front restores the parent's child list |
| Mount.WithoutAppended | lib/react-mount-node.ts:49-50 | taking out an element appended at the end restores the parent's child list |
| Mount.NewId | lib/react-mount-node.ts:45 | a created container's id is `containerId` when it is non-empty, else a string of the shape `id-` plus five hex digits |
| Mount.ResolveContainer | lib/react-mount-node.ts:36-53 | the container is `mountNode` when given, else the element `containerId` names, and in both cases the document is unchanged; otherwise it is a fresh `div` with id `containerId`, or `uuid()` when that is empty, inserted as the first (`isPrepend`) or last child of the parent, the other children in their old order, and added to the id index |
| Mount.Log.constructor | lib/react-mount-node.ts:25 | the log of renderer calls starts empty |
| Mount.Root.constructor | lib/react-mount-node.ts:69 | `createRoot(container)` gives a live root bound to that container with nothing rendered, and logs its own creation |
| Mount.Root.Render | lib/react-mount-node.ts:75 | the root now shows `content`, and the call is logged |
| Mount.Root.Unmount | lib/react-mount-node.ts:61 | the root is no longer live, and the call is logged |
| Mount.Root.RemoveRootElement | lib/react-mount-node.ts:71-73 | detaches the container as `remove()` does; the root, the log and the registry are not in its frame, so the root stays live and the registry is not touched |
| Mount.LastCreatedBound | lib/react-mount-node.ts:69-77 | the root last created for a container is bound to that container and appears in the log |
| Mount.LastCreatedAppend | lib/react-mount-node.ts:69-77 | log entries that create no root for a container leave its last created root unchanged |
| Mount.MountConsistent | lib/react-mount-node.ts:55-77 | one mount keeps the registry invariant: the container maps to the new root, the only root created for it since; the replaced root is retired; every other entry is unchanged |
| Mount.AtMostOneLive | lib/react-mount-node.ts:55-63 | under the invariant, a live root that the registry created is the one the table holds for its container |
| Mount.MountRegistry.constructor | lib/react-mount-node.ts:25 | the registry starts empty and valid |
| Mount.MountRegistry.Mount | lib/react-mount-node.ts:55-79 | the table becomes the old one with the container mapped to a fresh, live root showing `content`; a root previously there is unmounted, and this happens before the new root is created (the logged order is unmount, create, render); the class is overwritten only for a non-empty `containerClassName`; the invariant is kept; the log entries are written by the root operations themselves, so the order is the order of the calls |
| Mount.MountRegistry.MountSync | lib/react-mount-node.ts:28-80 | the whole of `mountReactNodeSync`, with `parentNode` defaulting to `document.body` (line 34): the container resolution of `ResolveContainer` combined with the registry effects of `Mount`; when a container is found, the id index and the parent's children are unchanged; the parent's id and own parent are always unchanged, and so is its class unless it is itself the container |
| Scenarios.CreateContainer | lib/react-mount-node.ts:43-50 | mounting where no container is found and the new id is free inserts the created container into the parent and enters it in the id index under that id |
| Scenarios.MountTwiceById | lib/react-mount-node.ts:39-63 | two mounts with the same fresh `containerId`: the second finds the first's container by id, unmounts the first root before creating the second, and one entry remains |
| Scenarios.MountThenRemove | lib/react-mount-node.ts:43-73 | after mounting into a created container, `removeRootElement` restores the parent's children and the id index, while the registry entry and the live root remain |

## Left out

- React itself (`createRoot`, `render` and `unmount` internals) is not modelled. A root is only its container, a live flag and the last content rendered.
- Mount.Root.Render: requires a live root, because React refuses to render into an unmounted one. This call site only renders a root it has just created.
- The document keeps no link between its parts: nothing states that the element registered under an id carries that id, or that an element's parent lists it among its children. So a client cannot conclude from the model that the element found under `containerId` has that id, although `getElementById` guarantees it.
- The real DOM is not modelled: no tree search by `getElementById`, no descendants leaving the index on `remove()`, no move semantics of `insertBefore`/`appendChild` (the only inserted element is a fresh one).
- Mount.ResolveContainer: assumes the insertion parent is attached to the document, so that the created `div` is then found by its id. If the id is already taken, which only happens when a generated id collides, the index keeps the earlier element; which of the two lies first in tree order is not modelled.
- Mount.MountRegistry.MountSync: requires at least five nibbles of random supply even when no id is generated. The supply stands for the endless `Math.random` stream; only the first five are read, and only for a generated id.
- `Math.random` and the float-to-int `| 0` truncation are not modelled. Each call's result is a supplied integer nibble in 0..15.
- `mountReactNode`, the async wrapper, is not modelled. It only returns a promise of the `mountReactNodeSync` call, and promise scheduling is outside the model.
- The commented-out warning on re-mount is logging only and is not modelled.
- The registry's invariant covers the roots it created. Roots unmounted by callers through the returned handle are not tracked.
