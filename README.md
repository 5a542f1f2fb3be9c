# Toast store of the bookmark manager's web client

The web client shows short notifications ("toasts") through one shared store
in `frontend/composables/useToast.ts`. The store holds a list of toasts
(`ToastItem { id, type, message, timeout }`) and an id counter that starts
at 1. `add` issues the counter's value as the new toast's id, increments the
counter, appends the toast and schedules its auto-dismissal; `remove` keeps
every toast whose id differs from its argument; `clear` empties the list and
leaves the counter alone; `success`, `error` and `info` are `add` with a fixed
type.

The model has two modules:

- `ToastList` (`toast_list.dfy`): the value types (`ToastType`, `ToastItem`,
  an `Option` for an omitted timeout, the 3000 ms default), the filter
  `Without(s, id)` that `remove` applies, the invariant predicates
  `IdsIncreasing`, `IdsDistinct` and `IdsBelow`, and the lemmas about them.
- `ToastStore` (`toast_store.dfy`): the module-level state as a class `Store`
  with a `seq<ToastItem>` field and an integer counter. Its methods change the
  state in place (`modifies this`) and state the whole new state. A ghost
  field `issued` records every id handed out so far, so that the contracts
  can say that an id is never issued twice, even across `Clear`. Every method
  keeps the invariant `Valid()`: the issued ids are exactly
  `1 .. nextId - 1`, every listed toast carries an issued id, and the ids
  strictly increase along the list (so the list is in issue order and its
  ids are pairwise distinct).

The auto-dismiss timer only ever calls `remove(id)` later; in the model it is
some later call of `Store.Remove` with the id `Add` returned.
`StaleDismissAfterClear` shows that such a late call after `Clear` is
harmless.

## Model

| member | source | states |
|---|---|---|
| `ToastStore.Store.constructor` | frontend/composables/useToast.ts:13-15 | the store starts with an empty list, the counter at 1 and no id issued, and satisfies the invariant |
| `ToastStore.Store.Add` | frontend/composables/useToast.ts:17-29 | returns the counter's old value and increments the counter by exactly 1; the returned id was never issued before and no listed toast has it; the new list is the old list with the toast `{id, type, message, timeout}` appended, the timeout being 3000 when omitted; the invariant is kept |
| `ToastStore.Store.Remove` | frontend/composables/useToast.ts:31-33 | the new list is the old one filtered by `Without`; no toast with the id is left, the list is no longer than before, an id no toast carries leaves the list unchanged, the counter is untouched and the invariant (issue order included) is kept |
| `ToastStore.Store.Clear` | frontend/composables/useToast.ts:35-37 | the list becomes empty while the counter and the set of issued ids stay as they were, so later ids never repeat earlier ones |
| `ToastStore.Store.ShowSuccess` | frontend/composables/useToast.ts:40-42 | the same outcome as `Add` with type `Success`, message and timeout passed through: a fresh id equal to the old counter, the counter up by one, the toast appended, the invariant kept |
| `ToastStore.Store.ShowError` | frontend/composables/useToast.ts:44-46 | the same outcome as `Add` with type `Error`, message and timeout passed through: a fresh id equal to the old counter, the counter up by one, the toast appended, the invariant kept |
| `ToastStore.Store.ShowInfo` | frontend/composables/useToast.ts:48-50 | the same outcome as `Add` with type `Info`, message and timeout passed through: a fresh id equal to the old counter, the counter up by one, the toast appended, the invariant kept |
| `ToastStore.StaleDismissAfterClear` | frontend/composables/useToast.ts:17-37 | after add, clear, add and the first toast's late auto-dismiss, the second id is larger than the first and only the second toast is listed |
| `ToastList.WithoutMembers` | frontend/composables/useToast.ts:32 | a toast is in the filtered list exactly when it was in the old list and its id differs from the removed id |
| `ToastList.WithoutLength` | frontend/composables/useToast.ts:32 | the filtered list is never longer than the old one, and has the same length exactly when no toast had the id |
| `ToastList.WithoutDropsId` | frontend/composables/useToast.ts:32 | no toast in the filtered list carries the removed id |
| `ToastList.WithoutAbsent` | frontend/composables/useToast.ts:31-33 | removing an id no toast carries returns the list unchanged, which makes a stale auto-dismiss a no-op |
| `ToastList.WithoutIdempotent` | frontend/composables/useToast.ts:24-26 | removing an id twice equals removing it once, so an auto-dismiss after a manual remove changes nothing |
| `ToastList.WithoutCommutes` | frontend/composables/useToast.ts:24-26 | two removals give the same list in either order, so auto-dismiss timers may fire in any order |
| `ToastList.WithoutConcat` | frontend/composables/useToast.ts:32 | filtering a concatenation is the concatenation of the filtered parts |
| `ToastList.WithoutSplit` | frontend/composables/useToast.ts:32 | filtering a list split at any position is the concatenation of the filtered prefix and suffix |
| `ToastList.WithoutPosition` | frontend/composables/useToast.ts:32 | a kept toast lands at the position given by the number of kept toasts before it |
| `ToastList.WithoutKeepsOrder` | frontend/composables/useToast.ts:32 | two kept toasts appear in the filtered list in the same relative order as before |
| `ToastList.WithoutKeepsIds` | frontend/composables/useToast.ts:31-33 | filtering keeps ids pairwise distinct and below the counter |
| `ToastList.DistinctPositions` | frontend/composables/useToast.ts:32 | with distinct ids, two positions of the filtered list hold different toasts |
| `ToastList.AppendKeepsIds` | frontend/composables/useToast.ts:18-21 | appending a toast whose id is the counter keeps the list in issue order and its ids below the incremented counter |
| `ToastList.WithoutKeepsIncreasing` | frontend/composables/useToast.ts:32 | filtering keeps the ids strictly increasing, so the list stays in issue order after a removal |
| `ToastList.IncreasingDistinct` | frontend/composables/useToast.ts:15-21 | a list whose ids strictly increase carries no id twice |
| `ToastList.DismissLastRestores` | frontend/composables/useToast.ts:21-26 | removing the id of the toast just appended, when no older toast has it, gives back the list before the append |

## Left out

- Timers: `window.setTimeout` is not modelled; auto-dismissal is any later call of `Store.Remove` with the issued id.
- Reactivity: the Vue `ref` wrapper around the list is not modelled; the list is a plain field of the store.
- Singleton: the source keeps the list and counter at module level, and `useToast()` hands every caller the same functions together with the live list reference `toasts`, which callers may read and write; the model has one `Store` object whose methods are those functions, and `useToast()` itself has no member.
- ToastStore.Store.Add, ToastStore.Store.Remove, ToastStore.Store.Clear: the model treats the list as a value that each method replaces. It does not capture that `add` pushes onto the shared array in place while `remove` and `clear` assign a new array, so a caller holding the old array keeps seeing later additions but not later removals; nor the aliasing of the exposed array, nor callers writing the list directly. `Valid()` is proved only for a store changed through its methods alone.
- Numbers: ids and timeouts are JavaScript numbers; the model uses unbounded integers, so the loss of precision of the counter beyond 2^53 and fractional or non-finite timeouts are not modelled.
- Omitted timeout: JavaScript applies the default of 3000 when the argument is `undefined`; the model's `Option` `None` stands for that case and `Some(t)` for any given number.
