# ListableAdapter collection manager

A model of the collection manager inside ogya's `ListableAdapter`, the
adapter behind its heterogeneous, data-bound lists. The adapter owns an
ordered sequence of `Listable` items (form inputs and arbitrary cards), a
default `ListableType` for items that carry no type tag, and it tells the
list view about every change through `notifyItem…` calls.

The model is functional. An `Adapter` value holds the default type, the
items and an append-only log of `Notification`s; every mutation is a pure
function from the old adapter to the new one. Each one states:

- the exact resulting sequence, index by index: what moved, what stayed;
- the exact notifications appended to the log.

The notification arguments are the ones the adapter actually passes. The
bulk insertions announce `ItemInserted(newSize - 1)` rather than the
insertion point. Every `ItemRangeChanged` carries the new list size as its
count. Positions whose bounds the backing `MutableList` checks are
preconditions. `AdapterRun.Run` also models the thrown exception as the end
of a call sequence.

Modules:

- `Listables` (listables.dfy): items, type tags, the two diff-callback
  predicates, and view-type resolution.
- `FormValues` (form_values.dfy): collecting the form's name→value answers.
- `Adapter` (adapter.dfy): the adapter state and its operations.
- `AdapterRun` (adapter_run.dfy): sequences of calls and the append-only
  log.
- `AdapterProperties` (adapter_properties.dfy): lemmas relating the
  operations, plus worked examples.

## Model

| member | source | states |
|---|---|---|
| Listables.AreItemsTheSame | ogya/src/main/java/com/billkainkoom/ogya/quicklist/ListableAdapter.kt:36-38 | the diff callback's "same item" test: two rows are the same row exactly when their identifiers are equal |
| Listables.AreContentsTheSame | ogya/src/main/java/com/billkainkoom/ogya/quicklist/ListableAdapter.kt:40-42 | the diff callback's "same contents" test: the two items are equal values |
| Listables.ContentsTheSameImpliesItemsTheSame | ogya/src/main/java/com/billkainkoom/ogya/quicklist/ListableAdapter.kt:35-43 | under field-by-field content equality, two rows with equal contents are always matched as the same row |
| Listables.EditedValueIsAChange | ogya/src/main/java/com/billkainkoom/ogya/quicklist/ListableAdapter.kt:35-43 | a copy of a form input with a different value is matched as the same item but does not have the same contents |
| Listables.ViewType | ogya/src/main/java/com/billkainkoom/ogya/quicklist/ListableAdapter.kt:45-53 | an untagged item gets the default type's layout; a tagged item gets its own type's layout |
| Listables.ViewTypeIgnoresDefaultWhenTagged | ogya/src/main/java/com/billkainkoom/ogya/quicklist/ListableAdapter.kt:45-53 | a tagged item's layout does not depend on the default at all; an untagged item's layout changes exactly when the default's layout does |
| Adapter.GetItemViewType | ogya/src/main/java/com/billkainkoom/ogya/quicklist/ListableAdapter.kt:45-53 | the layout for an in-bounds position follows the item's own tag, falling back to the adapter's default type |
| Adapter.Create | ogya/src/main/java/com/billkainkoom/ogya/quicklist/ListableAdapter.kt:22-31 | a new adapter holds the given default type and items and has sent no notification |
| FormValues.Retrieve | ogya/src/main/java/com/billkainkoom/ogya/quicklist/ListableAdapter.kt:100-108 | the keys are exactly the names of the form-input items; each key maps to the value of the last form input with that name |
| FormValues.RetrieveSnoc | ogya/src/main/java/com/billkainkoom/ogya/quicklist/ListableAdapter.kt:102-106 | scanning one more item overwrites its name if it is a form input and changes nothing otherwise |
| FormValues.RetrieveAppend | ogya/src/main/java/com/billkainkoom/ogya/quicklist/ListableAdapter.kt:100-108 | scanning a concatenation gives the union of the two maps, the later list winning on shared names |
| FormValues.FormInputsOf | ogya/src/main/java/com/billkainkoom/ogya/quicklist/ListableAdapter.kt:103 | the form-input items of a list: all of them and nothing else |
| FormValues.RetrieveOnlyFormInputsMatter | ogya/src/main/java/com/billkainkoom/ogya/quicklist/ListableAdapter.kt:102-106 | dropping every non-form item leaves the collected answers unchanged |
| Adapter.RetrieveFormValues | ogya/src/main/java/com/billkainkoom/ogya/quicklist/ListableAdapter.kt:100-108 | the adapter's answers: keys are the form-input names of its items, each with the last value given for it |
| Adapter.RemoveAt | ogya/src/main/java/com/billkainkoom/ogya/quicklist/ListableAdapter.kt:110-114 | for an in-bounds position: one item fewer; items before the position stay, later ones shift down by one; logs `ItemRemoved(p)` then `ItemRangeChanged(p, size-1)` |
| Adapter.Clear | ogya/src/main/java/com/billkainkoom/ogya/quicklist/ListableAdapter.kt:116-120 | the list becomes empty and exactly one `ItemRangeRemoved(0, old size)` is logged |
| Adapter.AddAt | ogya/src/main/java/com/billkainkoom/ogya/quicklist/ListableAdapter.kt:122-125 | for a position up to the size: the item lands at that position, earlier items stay, later ones shift up; logs exactly `ItemInserted(p)` |
| Adapter.ReplaceAt | ogya/src/main/java/com/billkainkoom/ogya/quicklist/ListableAdapter.kt:127-130 | same length, the new item at the position, every other index untouched; logs exactly `ItemChanged(p)` |
| Adapter.AddAtAll | ogya/src/main/java/com/billkainkoom/ogya/quicklist/ListableAdapter.kt:132-142 | both overloads: the block lands at the position in order, the rest shifts up by its length; logs `ItemInserted(newSize-1)` then `ItemRangeChanged(p, newSize)` |
| Adapter.Absent | ogya/src/main/java/com/billkainkoom/ogya/quicklist/ListableAdapter.kt:145 | an item survives the dedup exactly when it is incoming and not value-equal to a present item; never longer than the incoming list |
| Adapter.AddAll | ogya/src/main/java/com/billkainkoom/ogya/quicklist/ListableAdapter.kt:144-150 | the old items are an unchanged prefix and the appended suffix is the deduplicated batch; logs `ItemInserted(newSize-1)` then `ItemRangeChanged(oldSize, newSize)` |
| Adapter.Add | ogya/src/main/java/com/billkainkoom/ogya/quicklist/ListableAdapter.kt:152-155 | the old items are an unchanged prefix and the new item is last; logs exactly one `ItemInserted(old size)` |
| AdapterRun.Apply | ogya/src/main/java/com/billkainkoom/ogya/quicklist/ListableAdapter.kt:110-155 | a call succeeds exactly when its position is in the backing list's bounds; it then appends one or two notifications to the log and keeps the default type |
| AdapterRun.RunExtendsLog | ogya/src/main/java/com/billkainkoom/ogya/quicklist/ListableAdapter.kt:110-155 | over any completed sequence of calls the old log is a prefix of the new one, which grows by between one and two entries per call |
| AdapterRun.RunStopsAtFirstFailure | ogya/src/main/java/com/billkainkoom/ogya/quicklist/ListableAdapter.kt:110-142 | an out-of-bounds call ends the sequence: the run fails whatever follows it |
| AdapterProperties.AbsentCounts | ogya/src/main/java/com/billkainkoom/ogya/quicklist/ListableAdapter.kt:145 | a value already present never survives the dedup; any other value survives as many times as it was incoming, so repeats within the batch are kept |
| AdapterProperties.AbsentAppend | ogya/src/main/java/com/billkainkoom/ogya/quicklist/ListableAdapter.kt:145 | the dedup filter works item by item, so survivors keep their incoming order |
| AdapterProperties.AbsentOfCovered | ogya/src/main/java/com/billkainkoom/ogya/quicklist/ListableAdapter.kt:145 | when every incoming item is already present, nothing survives |
| AdapterProperties.AbsentOfDisjoint | ogya/src/main/java/com/billkainkoom/ogya/quicklist/ListableAdapter.kt:145 | when no incoming item is present, the whole batch survives in order |
| AdapterProperties.AddAllIdempotent | ogya/src/main/java/com/billkainkoom/ogya/quicklist/ListableAdapter.kt:144-150 | appending the same batch twice adds nothing the second time, which still logs `ItemInserted(n-1)` and `ItemRangeChanged(n, n)` |
| AdapterProperties.AddAllOfNewItemsIsAddAtAllAtEnd | ogya/src/main/java/com/billkainkoom/ogya/quicklist/ListableAdapter.kt:132-150 | with no overlap, the deduplicating append equals the bulk insertion at the end, log included |
| AdapterProperties.AddAllIsAddAtAllOfSurvivors | ogya/src/main/java/com/billkainkoom/ogya/quicklist/ListableAdapter.kt:132-150 | the deduplicating append is the bulk insertion, at the end, of the items that survive the filter, notifications included |
| AdapterProperties.AddAllKeepsRepeatsWithinBatch | ogya/src/main/java/com/billkainkoom/ogya/quicklist/ListableAdapter.kt:144-150 | a new item given twice in one batch is appended twice |
| AdapterProperties.AddIsAddAtEnd | ogya/src/main/java/com/billkainkoom/ogya/quicklist/ListableAdapter.kt:122-155 | appending one item is inserting it at the current size, with the same notification |
| AdapterProperties.RemoveAtUndoesAddAt | ogya/src/main/java/com/billkainkoom/ogya/quicklist/ListableAdapter.kt:110-125 | removing the item just inserted restores the list; the log gains insertion, removal and range change |
| AdapterProperties.AddAtUndoesRemoveAt | ogya/src/main/java/com/billkainkoom/ogya/quicklist/ListableAdapter.kt:110-125 | inserting back the item just removed at its old position restores the list |
| AdapterProperties.ReplaceAtLastWins | ogya/src/main/java/com/billkainkoom/ogya/quicklist/ListableAdapter.kt:127-130 | replacing an item by itself keeps the list; of two replacements at one position the later wins |
| AdapterProperties.AddAtAllOfOne | ogya/src/main/java/com/billkainkoom/ogya/quicklist/ListableAdapter.kt:122-142 | a one-item bulk insertion gives the same list as the single insertion but logs `ItemInserted(old size)` and a range change instead of `ItemInserted(p)` |
| AdapterProperties.AddAtAllAnnouncedPosition | ogya/src/main/java/com/billkainkoom/ogya/quicklist/ListableAdapter.kt:132-142 | the announced insertion falls inside the inserted block exactly when the block is inserted at the end |
| AdapterProperties.ClearForgetsEverything | ogya/src/main/java/com/billkainkoom/ogya/quicklist/ListableAdapter.kt:100-120 | after a clear there are no form answers; a second clear logs `ItemRangeRemoved(0, 0)` |
| AdapterProperties.ReplaceAtUpdatesFormValue | ogya/src/main/java/com/billkainkoom/ogya/quicklist/ListableAdapter.kt:100-130 | replacing the last form input with a given name by a copy with a new value changes that name's answer to the new value and leaves every other answer as it was |
| AdapterProperties.TwoInputsExample | ogya/src/main/java/com/billkainkoom/ogya/quicklist/ListableAdapter.kt:100-108 | inputs a=x and b=y yield the map {a: x, b: y} |
| AdapterProperties.RepeatedNameExample | app/src/main/java/com/billkainkoom/appcomponents/FormActivity.kt:73-114 | a form that asks for "time" twice, with a card in between, reports the later answer |
| AdapterProperties.ViewTypeExample | app/src/main/java/com/billkainkoom/appcomponents/FormActivity.kt:79-127 | with a Person default, an Animal card and a Person card each resolve to their own layouts |
| AdapterProperties.DedupExample | ogya/src/main/java/com/billkainkoom/ogya/quicklist/ListableAdapter.kt:144-150 | appending [P1, P2] to [P1] yields [P1, P2] |

## Left out

- The diff algorithm itself (`DiffUtil`, `ListAdapter.submitList`) lives in the androidx library, not in this repository. Only its two callback predicates are modelled.
- `getItemViewType` reads the item through `getItem`, which returns the list last submitted to the library. The model reads `listables` instead, and treats the call as a pure function: the `currentListableType` field it sets is not modelled.
- View creation and binding: `onCreateViewHolder`, `onBindViewHolder`, `setIsRecyclable`, click listeners and the binding callbacks. These are Android view plumbing and host callbacks.
- The `ListableViewHolder` text watchers, which write edits into form inputs and raise `inputChangeListener` events. They are widget event wiring through a `watch` extension that is not part of this model.
- The definition of `QuickFormInputElement` is not among the repository files this model draws on. `Listables.FormInput` models it with the fields its call sites use: name, value, hint, placeholder and input kind.
- `Listables.FormInput` has no `textWatcher` field, because a callback has no value equality in the model. If the Kotlin class's `equals` compares the watcher, two inputs that differ only in their watcher are distinct in the source but equal here. `AreContentsTheSame` then calls them the same contents, and `AddAll` drops such an input as already present.
- Listables.AreContentsTheSame: content equality is modelled as structural equality of every modelled field, `identifier` and `listableType` included. In the source it is the item classes' own `equals`, and those classes are not among the repository files this model draws on, so nothing there guarantees that equal contents imply equal identifiers.
- Identifiers are modelled as strings.
- `add(list)` removes the duplicates from the caller's own list in place, through an unchecked `ArrayList` cast that fails at runtime for other list types. The model instead filters an immutable sequence and returns the result. In particular, passing the adapter's own list (`listables` is a public `var`) empties that shared list in the source, so the adapter ends with no items and logs `ItemInserted(-1)` then `ItemRangeChanged(0, 0)`; the model keeps every item and logs `ItemInserted(size - 1)` then `ItemRangeChanged(size, size)`.
- The sample screen `FormActivity` is left out. The worked examples borrow its shape: a Person default, Animal and Person cards, and a repeated "time" input with cards in between. The answer values are made up, since the screen's inputs all start empty.
