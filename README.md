# Repeatable reference field: the row list and its handlers

A content-platform field editor that holds an ordered list of "reference"
rows. Each row has a title, an image (empty or a link to an asset), a
description, a call-to-action link and call-to-action button text. Each row
also has a local key that is never persisted. The editor builds the rows from
the field's stored value once, at mount. Its handlers add, edit, set an image
on, delete and reorder rows. After every change it pushes the list, without
keys, back to the host field.

This project models that row list and every handler that changes it:

- `wrappers.dfy` (module `Wrappers`): `Option`.
- `rows.dfy` (module `Rows`): the data model (`Row`, `Entry`, `Image`, `Field`,
  `Asset`, `Selection`) and the pure list operations. These are hydration,
  sanitizing, add, text edit, image set and delete by identity, with the
  lemmas about them.
- `reorder.dfy` (module `Reordering`): the two `splice` calls of the drag
  handler (`RemoveAt`, `InsertAt`, with `SpliceStart` for the index clamping
  that `splice` applies). It also holds an independent index-map definition
  of the move (`Moved`) and the lemmas that connect the two: permutation,
  relative order, position of the moved element, and undo.
- `field.dfy` (module `Widget`): the class `RepeatableField`. Its fields are
  the component state (`rows`), the supply of fresh keys (`nextKey`) and the
  log of values pushed to the host field (`writes`). Its methods are the event
  handlers. Each one is proved against the pure operation above. Each one
  keeps the invariant that keys are unique and fresh, and that the last pushed
  value is the sanitized current list.

Two behaviours of the code that the model keeps:

- The image handler copies the list when the button is clicked. After the
  asset dialog settles, it bounds-checks against that copy and commits that
  copy (`src/components/WHRepeatableReferenceField.tsx:68`, `:83`, `:99`). It
  does not re-read the latest list. So a row added while the dialog is open is
  dropped when an image is chosen. A row deleted in that time comes back.
  `Widget.RepeatableField.CompleteImageSelection` states this.
- Delete filters by object identity (`!==`). The model gives every row a
  unique key that never changes, and uses the key as the row's identity.

## Model

| member | source | states |
|---|---|---|
| `Rows.Hydrate` | src/components/WHRepeatableReferenceField.tsx:21-25 | an absent stored value gives no rows; otherwise one row per stored record in the same order, each keeping the record's five fields, with distinct fresh keys |
| `Rows.SanitizeHydrate` | src/components/WHRepeatableReferenceField.tsx:22-24 | sanitizing freshly hydrated rows gives back exactly the stored value |
| `Rows.Sanitize` | src/components/WHRepeatableReferenceField.tsx:34-43 | the pushed value has one record per row, in order, carrying exactly the row's title, image, desc, cta_link and cta_button_text, and no key |
| `Rows.SanitizeForgetsOnlyKeys` | src/components/WHRepeatableReferenceField.tsx:34-43 | two lists with the same sanitized value are equal up to their keys: sanitizing drops nothing but the key |
| `Rows.Add` | src/components/WHRepeatableReferenceField.tsx:48-53 | adding makes the list one longer, keeps every earlier row, and puts at the end a row with the new key, all texts empty and no image |
| `Rows.AddKeepsKeysUnique` | src/components/WHRepeatableReferenceField.tsx:51 | a fresh key keeps all keys distinct, and every key stays below the next fresh one |
| `Rows.SanitizeAdd` | src/components/WHRepeatableReferenceField.tsx:49-51 | after an add, the field receives its previous value plus one record with empty texts and an empty image |
| `Rows.WithText` | src/components/WHRepeatableReferenceField.tsx:61 | the named text of the row becomes the new value; the other three texts, the key and the image stay |
| `Rows.EditText` | src/components/WHRepeatableReferenceField.tsx:57-63 | an index outside the list gives no new list (the assignment throws); otherwise only the named field of row i changes, to the new value, and the length and all other rows stay |
| `Rows.EditTextUndo` | src/components/WHRepeatableReferenceField.tsx:57-63 | typing the previous text back into the same input restores the original list |
| `Rows.EditTextKeepsKeys` | src/components/WHRepeatableReferenceField.tsx:61 | a text edit leaves every row's key in its place |
| `Rows.AssetLink` | src/components/WHRepeatableReferenceField.tsx:86-93 | the image stored for an asset is a link with the asset's id, linkType "Asset", type "Link" and the asset's URL |
| `Rows.SetImage` | src/components/WHRepeatableReferenceField.tsx:81-106 | with an asset and 0 <= i < length, row i gets the asset's link and nothing else in the list changes; a cancelled or failed dialog or an index out of range leaves the list unchanged |
| `Rows.SetImageIdempotent` | src/components/WHRepeatableReferenceField.tsx:86-93 | choosing the same asset again for the same row gives the same list |
| `Rows.SetImageKeepsKeys` | src/components/WHRepeatableReferenceField.tsx:86 | setting an image leaves every row's key in its place |
| `Rows.DeleteByKey` | src/components/WHRepeatableReferenceField.tsx:110-113 | no surviving row has the deleted identity, every survivor was in the list, the list does not grow, and unique keys stay unique |
| `Rows.DeleteKeepsOthers` | src/components/WHRepeatableReferenceField.tsx:111 | every row with another identity survives the delete |
| `Rows.DeleteAbsent` | src/components/WHRepeatableReferenceField.tsx:111 | deleting an identity that is not in the list leaves the list unchanged |
| `Rows.DeleteRemovesOne` | src/components/WHRepeatableReferenceField.tsx:110-113 | with unique keys, deleting the row at position j gives exactly the list without position j, one shorter, the others in order; so a one-row list becomes empty |
| `Rows.DeleteKeepsKeysBelow` | src/components/WHRepeatableReferenceField.tsx:111 | deleting keeps every remaining key below the next fresh key |
| `Rows.MovedKeepsKeysUnique` | src/components/WHRepeatableReferenceField.tsx:119-124 | a move keeps keys distinct and below the next fresh key |
| `Rows.SanitizeMoved` | src/components/WHRepeatableReferenceField.tsx:119-124 | the value pushed after a move is the previous pushed value with the same move applied |
| `Reordering.SpliceStart` | src/components/WHRepeatableReferenceField.tsx:121-122 | the splice index: an in-range start is kept, a start past the end goes to the end, a negative start counts back from the end and is clamped at 0 |
| `Reordering.RemoveAt` | src/components/WHRepeatableReferenceField.tsx:121 | splice(i, 1) leaves a list one shorter, with the elements before i unchanged and those after i shifted down by one |
| `Reordering.InsertAt` | src/components/WHRepeatableReferenceField.tsx:122 | splice(i, 0, x) gives a list one longer with x at i, the elements before i unchanged and those from i shifted up by one |
| `Reordering.Moved` | src/components/WHRepeatableReferenceField.tsx:119-124 | the reference move has the input's length and holds the moved element at the destination |
| `Reordering.MovedBySplices` | src/components/WHRepeatableReferenceField.tsx:120-122 | removing at the source and inserting the removed element at the destination gives exactly the reference move |
| `Reordering.MovedIsPermutation` | src/components/WHRepeatableReferenceField.tsx:119-124 | the move is a permutation: the multiset of elements is unchanged |
| `Reordering.MovedKeepsRelativeOrder` | src/components/WHRepeatableReferenceField.tsx:119-124 | taking the moved element out of the result gives the input with the moved element taken out, so every other element keeps its relative order |
| `Reordering.MovedUndo` | src/components/WHRepeatableReferenceField.tsx:119-124 | dragging the element from the destination back to the source restores the original list |
| `Reordering.Reorder` | src/components/WHRepeatableReferenceField.tsx:116-125 | with no destination the list is unchanged; otherwise the same length, the element at the splice position of the source (a negative source counts back from the end) now at the splice position of the destination, the others in their relative order, and a permutation of the input |
| `Widget.RepeatableField.constructor` | src/components/WHRepeatableReferenceField.tsx:21-25 | mount: the rows are the hydrated stored value, and the first push hands the field back its stored value (an empty list when there was none) |
| `Widget.RepeatableField.Commit` | src/components/WHRepeatableReferenceField.tsx:33-45 | every state change is followed by exactly one push of the sanitized new list |
| `Widget.RepeatableField.AddRow` | src/components/WHRepeatableReferenceField.tsx:48-53 | the rows become the add of a fresh key, the key supply advances, and the field receives its previous value plus one empty record |
| `Widget.RepeatableField.ChangeText` | src/components/WHRepeatableReferenceField.tsx:57-63 | throws, with no state change and no push, exactly when there is no row at i; otherwise the rows become the text edit and one push follows |
| `Widget.RepeatableField.BeginImageSelection` | src/components/WHRepeatableReferenceField.tsx:66-68 | the click captures the row position and the list as it is at that moment, whose keys are unique and already handed out |
| `Widget.RepeatableField.CompleteImageSelection` | src/components/WHRepeatableReferenceField.tsx:74-106 | with an asset and a position inside the captured list, the captured list with the new image becomes the state and is pushed; otherwise state and field are untouched |
| `Widget.RepeatableField.DeleteRow` | src/components/WHRepeatableReferenceField.tsx:110-113 | the rows become the list without the passed row's identity, and one push follows |
| `Widget.RepeatableField.DragEnd` | src/components/WHRepeatableReferenceField.tsx:116-125 | the two splices on a copy of the list, each at its clamped splice position, produce exactly the reorder; with no destination nothing is set or pushed |

## Left out

- Rendering, thumbnails, card layout and the drag-and-drop library's machinery
  (lines 127-249). These are UI. Only the `{source.index, destination?}`
  result given to the drag handler is modelled.
- `uuid()`: a foreign random generator. It is modelled as a counter
  (`nextKey`) that only ever hands out keys above every key in use.
- `startAutoResizer()` (lines 28-30), the React scheduling of effects, and the
  effect's dependency on the SDK's field object. Only the value passed to
  `setValue` is modelled, as the `writes` log.
- The asset dialog is asynchronous and can throw, and the locale lookup of the
  file URL (line 84) can throw too. The dialog's outcome is an input:
  `Picked(asset)` with the URL already resolved, `Cancelled`, or `Failed` for
  either exception. Diagnostics (`console.log`, `console.error`) are left out.
- `Widget.RepeatableField.CompleteImageSelection`: rows are values here, but in
  the program they are objects shared between the captured copy and later
  lists. So a text edit made to a captured row while the dialog is open
  survives in the program, through that sharing. So does an image that a
  second dialog, settling in between, assigned to a captured row: both
  dialogs' copies hold the same row objects. In the model both are replaced
  by the captured version of the row.
- A result from the dialog after the component is unmounted is not modelled.
  The program has no guard for it.
- String-to-number coercion of `data-index`: indices are integers here.
- `Rows.Hydrate`: a stored record is modelled with exactly the five persisted
  fields. Any extra property that the spread copies into the row is left out.
  Sanitizing drops such a property anyway.
- `Widget.RepeatableField.DragEnd` and `Reordering.Reorder` require the list to
  be non-empty and the source index to be below its length, which the drag
  library guarantees. A negative source index is modelled: `splice` counts it
  back from the end and clamps it at 0, so a real row moves. Only a source
  index at or past the end makes `splice` remove nothing and insert
  `undefined`, which a row list cannot hold.
