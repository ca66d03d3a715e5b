# Transform mask positioner: the name search and the positioning loop

This project models the part of the Krita transform mask positioner plugin
that does not depend on the host. Two pieces are modelled:

- `find_mask_recursive` searches a document's layer tree for the first node
  with a given name. It walks each node's children left to right. A child
  whose own name matches is returned at once. A child that has children of
  its own is searched before the next sibling. The node handed in is never
  looked at itself.
- The loop of `action_triggered` walks the ordered `positions` table of
  `(name, (x, y))` entries. For each entry it looks the name up under the
  document's root node. A missing name is skipped. A node of type
  `"transformationmask"` is moved to the absolute point `(x, y)`. The
  progress counter goes up once for every name that is found, whatever the
  node's type.

Files:

- `Wrappers.dfy`: the `Option` datatype, standing for Python's `None`.
- `MaskSearch.dfy`: the tree datatype `Node(name, kind, children)`, the
  search, and a pre-order listing `Descendants` with the reference
  `FirstNamed` ("first node of a sequence with this name"). The search is
  proved equal to `FirstNamed(Descendants(root), name)`. Soundness,
  completeness, the root being skipped and the precedence rules follow from
  that equality.
- `Positioner.dfy`: the class `MaskPositioner`. Its fields are the list of
  moves issued so far and the progress counter. Its method `ActionTriggered`
  runs the loop. It is proved against the functions `Plan` (the moves for a
  table) and `Progress` (how far the counter advances). The per-name decision
  is made in `StepMoves` (a move only for a name found as a
  `"transformationmask"`, to the entry's own point) and `StepProgress` (one
  step for every name found, none for a missing name); `Plan` and `Progress`
  apply them entry by entry. The lemmas describe those two functions entry
  by entry.

Host effects are recorded, not performed. A `Move(name, x, y)` is appended
where the source calls `mask.move(x, y)`. The `progress` field is
incremented where the source calls `progress.setValue(progress.value() + 1)`.
Each run opens a new progress dialog, so the counter starts again from zero
on every run that finds a document, while the moves already made on the host
stay.
The open document is a parameter `doc: Option<Node>`, holding its root node.
It is `None` when no document is open, and then the method changes nothing.

## Model

| member | source | states |
|---|---|---|
| `MaskSearch.FindFrom` | transform_mask_positioner.py:24-31 | the loop over the children from child i on returns only a node with the requested name that lies below those children |
| `MaskSearch.FindMask` | transform_mask_positioner.py:22-32 | a returned node carries the requested name and is a descendant of the root |
| `MaskSearch.FindFromIsFirstMatch` | transform_mask_positioner.py:24-31 | resumed at any child, the search returns the first name match in the pre-order listing of that child's subtree followed by the later siblings' subtrees |
| `MaskSearch.FindMaskIsFirstPreOrderMatch` | transform_mask_positioner.py:22-32 | the search returns the first node, in pre-order below the root, whose name matches |
| `MaskSearch.FindMaskFirstInPreOrder` | transform_mask_positioner.py:24-31 | a found node sits at some pre-order position, and no node listed before it has the name |
| `MaskSearch.FindMaskNoneIffAbsent` | transform_mask_positioner.py:24-32 | None is returned exactly when no descendant at any depth has the requested name |
| `MaskSearch.RootNeverReturned` | transform_mask_positioner.py:24 | the root passed in is never the result, even when its own name is the one requested |
| `MaskSearch.RootNameNeverCompared` | transform_mask_positioner.py:24 | the root's own name and type play no part: two roots with the same children give the same result |
| `MaskSearch.SkipUnmatchedSibling` | transform_mask_positioner.py:26-31 | a child whose subtree has no match passes the search on to the next sibling |
| `MaskSearch.SkipUnmatchedSiblings` | transform_mask_positioner.py:24-31 | a run of children whose subtrees have no match is passed over |
| `MaskSearch.EarlierSubtreeWins` | transform_mask_positioner.py:24-31 | when no earlier sibling's subtree holds the name, a match in child i's subtree beats every later sibling, and a child whose own name matches is returned before its subtree is looked at |
| `MaskSearch.FirstNamed` | transform_mask_positioner.py:24-32 | the reference search over a pre-order listing: its result has the name and is in the listing, and it is None exactly when no element has the name |
| `MaskSearch.FirstNamedIsFirst` | transform_mask_positioner.py:26-27 | the reference result sits at an index before which no element has the name |
| `MaskSearch.FirstNamedAppend` | transform_mask_positioner.py:28-31 | over two listings in a row, a match in the first wins over any match in the second |
| `Positioner.PlanIsOrderedSelection` | transform_mask_positioner.py:51-69 | the moves issued are exactly the entries whose name is found as a `"transformationmask"`, each with the entry's own absolute `(x, y)`, in table order |
| `Positioner.ProgressCountsFoundNames` | transform_mask_positioner.py:51-78 | the counter goes up by the number of entries whose name is found, whatever the node's type |
| `Positioner.MovesWithinProgress` | transform_mask_positioner.py:51-78 | the number of moves is at most the counter's advance, which is at most the number of entries |
| `Positioner.PlanConcat` | transform_mask_positioner.py:51 | the entries are handled one after another and independently: moves and progress of a table split in two add up |
| `Positioner.MissingNameSkipped` | transform_mask_positioner.py:53-56 | an entry whose name is not found issues no move and does not advance the counter, and the loop goes on with the later entries |
| `Positioner.FoundNonMaskCounted` | transform_mask_positioner.py:59-78 | a found node that is not a transform mask issues no move but advances the counter by one |
| `Positioner.FoundMaskMoved` | transform_mask_positioner.py:59-78 | a found transform mask issues its move between the earlier and the later entries' moves, and advances the counter by one |
| `Positioner.MaskPositioner.constructor` | transform_mask_positioner.py:10-11 | a fresh extension object has issued no moves and no dialog has counted anything |
| `Positioner.MaskPositioner.ActionTriggered` | transform_mask_positioner.py:34-80 | with no open document nothing changes; otherwise the moves gain exactly `Plan(root, positions)` and the new dialog's counter ends at exactly `Progress(root, positions)` |

## Left out

- Host calls are not modelled: `Krita.instance()`, `setActiveNode`, `refreshProjection`, `waitForDone`, and the action wiring in `setup` and `createActions`. They are I/O with the editor and carry no logic of their own.
- The dialogs are not modelled: `QProgressDialog`, both `QMessageBox` calls and `QApplication.processEvents`. They are user interface only.
- The `time.sleep` pauses are not modelled. They only affect timing.
- The progress dialog's maximum is not modelled. It counts the root's direct children of type `"grouplayer"` and has no relation to the loop.
- The diagnostic `print` line is not modelled. It prints `x` twice, but it is output only.
- The contents of the `positions` table are not modelled. That module is not part of this model; the table is an input sequence in the dict's insertion order.
- Positioner.MaskPositioner.ActionTriggered: the counter is a plain number that each run resets to zero. The model does not capture how Qt's progress dialog stores it. Qt ignores values above the maximum, and with auto-reset the value returns to its start when it reaches the maximum.
- Positioner.MaskPositioner.ActionTriggered: the model accepts any sequence of entries, including repeated names. A Python dict cannot repeat a key, so this only widens what is covered.
- MaskSearch.FindMask: the model shows no identity of host objects. A found node is a value, so "the same node object" is read as "the same name, type and subtree". The source's `if found:` test is read as "a node was returned", because a Krita node object is always truthy.
