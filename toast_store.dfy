/**
 * The toast store of the web client: one list of visible toasts and one id
 * counter, shared by every caller of the composable. `Add` issues the
 * counter's value as the new toast's id and appends the toast; `Remove`
 * filters out the toasts with a given id; `Clear` empties the list and
 * leaves the counter alone. Auto-dismissal is a later `Remove` of the id
 * `Add` returned.
 */
module ToastStore {
  import opened ToastList

  class Store {
    /** The visible toasts, oldest first (see `Valid`: ids increase along the list). */
    var toasts: seq<ToastItem>
    /** The id the next `Add` will issue. */
    var nextId: int
    /** Every id issued so far, including ids of toasts already removed. */
    ghost var issued: set<int>

    /**
     * The store invariant: the ids issued so far are exactly 1 .. nextId - 1;
     * every listed toast carries an issued id, and the list is in issue
     * order (so its ids are distinct, see `IncreasingDistinct`).
     */
    ghost predicate Valid()
      reads this
    {
      1 <= nextId &&
      (forall k :: k in issued <==> 1 <= k < nextId) &&
      (forall i :: 0 <= i < |toasts| ==> toasts[i].id in issued) &&
      IdsIncreasing(toasts) && IdsBelow(toasts, nextId)
    }

    /** The module-level state as the page first loads it: no toasts, counter at 1. */
    constructor ()
      ensures Valid()
      ensures toasts == [] && nextId == 1 && issued == {}
    {
      toasts := [];
      nextId := 1;
      issued := {};
    }

    /**
     * Shows a toast: the counter's old value becomes its id, the counter
     * moves up by one, and the toast goes to the end of the list.
     */
    method Add(kind: ToastType, message: string, timeout: Option<int>) returns (id: int)
      requires Valid()
      modifies this
      ensures Valid()
      ensures id == old(nextId) && nextId == old(nextId) + 1
      ensures id !in old(issued) && issued == old(issued) + {id}
      ensures !HasId(old(toasts), id)
      ensures toasts == old(toasts) + [ToastItem(id, kind, message, if timeout.Some? then timeout.value else DefaultTimeout)]
    {
      id := nextId;
      nextId := nextId + 1;
      var item := ToastItem(id, kind, message, if timeout.Some? then timeout.value else DefaultTimeout);
      AppendKeepsIds(toasts, id, item);
      toasts := toasts + [item];
      issued := issued + {id};
    }

    /**
     * Dismisses every toast with the given id and keeps the others in order;
     * an id no toast carries changes nothing.
     */
    method Remove(id: int)
      requires Valid()
      modifies this
      ensures Valid()
      ensures toasts == Without(old(toasts), id)
      ensures !HasId(toasts, id) && |toasts| <= |old(toasts)|
      ensures !HasId(old(toasts), id) ==> toasts == old(toasts)
      ensures nextId == old(nextId) && issued == old(issued)
    {
      WithoutKeepsIncreasing(toasts, id);
      WithoutKeepsIds(toasts, id, nextId);
      forall t | t in Without(toasts, id) ensures t in toasts {
        WithoutMembers(toasts, id, t);
      }
      WithoutDropsId(toasts, id);
      WithoutLength(toasts, id);
      if !HasId(toasts, id) {
        WithoutAbsent(toasts, id);
      }
      toasts := Without(toasts, id);
    }

    /** Dismisses every toast; the counter is not reset. */
    method Clear()
      requires Valid()
      modifies this
      ensures Valid()
      ensures toasts == []
      ensures nextId == old(nextId) && issued == old(issued)
    {
      toasts := [];
    }

    /** `Add` with kind `Success`. */
    method ShowSuccess(message: string, timeout: Option<int>) returns (id: int)
      requires Valid()
      modifies this
      ensures Valid()
      ensures id == old(nextId) && nextId == old(nextId) + 1
      ensures id !in old(issued) && issued == old(issued) + {id}
      ensures !HasId(old(toasts), id)
      ensures toasts == old(toasts) + [ToastItem(id, Success, message, if timeout.Some? then timeout.value else DefaultTimeout)]
    {
      id := Add(Success, message, timeout);
    }

    /** `Add` with kind `Error`. */
    method ShowError(message: string, timeout: Option<int>) returns (id: int)
      requires Valid()
      modifies this
      ensures Valid()
      ensures id == old(nextId) && nextId == old(nextId) + 1
      ensures id !in old(issued) && issued == old(issued) + {id}
      ensures !HasId(old(toasts), id)
      ensures toasts == old(toasts) + [ToastItem(id, Error, message, if timeout.Some? then timeout.value else DefaultTimeout)]
    {
      id := Add(Error, message, timeout);
    }

    /** `Add` with kind `Info`. */
    method ShowInfo(message: string, timeout: Option<int>) returns (id: int)
      requires Valid()
      modifies this
      ensures Valid()
      ensures id == old(nextId) && nextId == old(nextId) + 1
      ensures id !in old(issued) && issued == old(issued) + {id}
      ensures !HasId(old(toasts), id)
      ensures toasts == old(toasts) + [ToastItem(id, Info, message, if timeout.Some? then timeout.value else DefaultTimeout)]
    {
      id := Add(Info, message, timeout);
    }
  }

  /**
   * A toast shown, then the list cleared, then another toast shown: the
   * second id differs from the first, and the first toast's auto-dismiss,
   * firing late, leaves the second toast in place.
   */
  method StaleDismissAfterClear(store: Store, m1: string, m2: string) returns (first: int, second: int)
    requires store.Valid()
    modifies store
    ensures store.Valid()
    ensures first < second
    ensures store.toasts == [ToastItem(second, Info, m2, DefaultTimeout)]
  {
    first := store.ShowSuccess(m1, None);
    store.Clear();
    second := store.ShowInfo(m2, None);
    store.Remove(first);
    assert store.toasts == [ToastItem(second, Info, m2, DefaultTimeout)] by {
      var old2 := [ToastItem(second, Info, m2, DefaultTimeout)];
      assert old2[0].id != first;
    }
  }
}
