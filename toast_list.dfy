/**
 * The values held by the client-side toast store: the kinds of toast, one
 * toast item, and the pure list operations the store is specified with.
 *
 * `Without(s, id)` is the filter that removing a toast performs: it keeps,
 * in order, every item whose id differs from `id`.
 */
module ToastList {

  /** The three kinds of notification a toast can have. */
  datatype ToastType = Success | Error | Info

  /** One toast; ids are issued by the store, the timeout is in milliseconds. */
  datatype ToastItem = ToastItem(id: int, kind: ToastType, message: string, timeout: int)

  /** An optional argument: `None` stands for an omitted (undefined) argument. */
  datatype Option<T> = None | Some(value: T)

  /** The auto-dismiss delay used when no timeout is given. */
  const DefaultTimeout: int := 3000

  /** Every item of `s` carries an id strictly below `bound`. */
  ghost predicate IdsBelow(s: seq<ToastItem>, bound: int)
  {
    forall i :: 0 <= i < |s| ==> s[i].id < bound
  }

  /** No two items of `s` carry the same id. */
  ghost predicate IdsDistinct(s: seq<ToastItem>)
  {
    forall i, j :: 0 <= i < j < |s| ==> s[i].id != s[j].id
  }

  /** Ids strictly increase along `s`: the list is in the order the ids were issued. */
  ghost predicate IdsIncreasing(s: seq<ToastItem>)
  {
    forall i, j :: 0 <= i < j < |s| ==> s[i].id < s[j].id
  }

  /** Some item of `s` carries the id `id`. */
  ghost predicate HasId(s: seq<ToastItem>, id: int)
  {
    exists i :: 0 <= i < |s| && s[i].id == id
  }

  /** The items of `s` whose id differs from `id`, in their original order. */
  function Without(s: seq<ToastItem>, id: int): seq<ToastItem>
  {
    if s == [] then []
    else (if s[0].id == id then [] else [s[0]]) + Without(s[1..], id)
  }

  /** An item is kept exactly when it was in the list and has another id. */
  lemma {:induction false} WithoutMembers(s: seq<ToastItem>, id: int, t: ToastItem)
    ensures t in Without(s, id) <==> t in s && t.id != id
  {
    if s != [] {
      WithoutMembers(s[1..], id, t);
      assert s == [s[0]] + s[1..];
    }
  }

  /** Removing never makes the list longer; it shrinks it exactly when some item had the id. */
  lemma {:induction false} WithoutLength(s: seq<ToastItem>, id: int)
    ensures |Without(s, id)| <= |s|
    ensures |Without(s, id)| == |s| <==> !HasId(s, id)
  {
    if s != [] {
      WithoutLength(s[1..], id);
      if HasId(s[1..], id) {
        var i :| 0 <= i < |s[1..]| && s[1..][i].id == id;
        assert s[i + 1].id == id;
      }
      if HasId(s, id) && s[0].id != id {
        var i :| 0 <= i < |s| && s[i].id == id;
        assert s[1..][i - 1].id == id;
      }
    }
  }

  /** After removal no item carries the removed id. */
  lemma WithoutDropsId(s: seq<ToastItem>, id: int)
    ensures !HasId(Without(s, id), id)
  {
  }

  /** Removing an id no item carries leaves the list as it was. */
  lemma {:induction false} WithoutAbsent(s: seq<ToastItem>, id: int)
    requires !HasId(s, id)
    ensures Without(s, id) == s
  {
    if s != [] {
      assert s[0].id != id;
      assert !HasId(s[1..], id) by {
        forall i | 0 <= i < |s[1..]| ensures s[1..][i].id != id {
          assert s[1..][i] == s[i + 1];
        }
      }
      WithoutAbsent(s[1..], id);
      assert s == [s[0]] + s[1..];
    }
  }

  /** Removing the same id twice is the same as removing it once. */
  lemma WithoutIdempotent(s: seq<ToastItem>, id: int)
    ensures Without(Without(s, id), id) == Without(s, id)
  {
    WithoutDropsId(s, id);
    WithoutAbsent(Without(s, id), id);
  }

  /** Removals of two ids give the same list in either order. */
  lemma {:induction false} WithoutCommutes(s: seq<ToastItem>, a: int, b: int)
    ensures Without(Without(s, a), b) == Without(Without(s, b), a)
  {
    if s != [] {
      WithoutCommutes(s[1..], a, b);
      var h := [s[0]];
      WithoutConcat(if s[0].id == a then [] else h, Without(s[1..], a), b);
      WithoutConcat(if s[0].id == b then [] else h, Without(s[1..], b), a);
      assert Without(h, a) == if s[0].id == a then [] else h by { assert h[1..] == []; }
      assert Without(h, b) == if s[0].id == b then [] else h by { assert h[1..] == []; }
    }
  }

  /** Removal distributes over concatenation. */
  lemma {:induction false} WithoutConcat(x: seq<ToastItem>, y: seq<ToastItem>, id: int)
    ensures Without(x + y, id) == Without(x, id) + Without(y, id)
  {
    if x != [] {
      assert (x + y)[1..] == x[1..] + y;
      WithoutConcat(x[1..], y, id);
    } else {
      assert x + y == y;
    }
  }

  /** Splitting the list at `k` splits the filtered list accordingly. */
  lemma WithoutSplit(s: seq<ToastItem>, id: int, k: nat)
    requires k <= |s|
    ensures Without(s, id) == Without(s[..k], id) + Without(s[k..], id)
  {
    assert s == s[..k] + s[k..];
    WithoutConcat(s[..k], s[k..], id);
  }

  /**
   * A kept item `s[i]` lands at position |Without(s[..i], id)| of the
   * filtered list: its place is fixed by how many items before it are kept.
   */
  lemma WithoutPosition(s: seq<ToastItem>, id: int, i: nat)
    requires i < |s| && s[i].id != id
    ensures |Without(s[..i], id)| < |Without(s, id)|
    ensures Without(s, id)[|Without(s[..i], id)|] == s[i]
  {
    WithoutSplit(s, id, i);
    assert s[i..][0] == s[i];
  }

  /** Removal keeps the relative order of the items it keeps. */
  lemma WithoutKeepsOrder(s: seq<ToastItem>, id: int, i: nat, j: nat)
    requires i < j < |s| && s[i].id != id && s[j].id != id
    ensures |Without(s[..i], id)| < |Without(s[..j], id)| < |Without(s, id)|
    ensures Without(s, id)[|Without(s[..i], id)|] == s[i]
    ensures Without(s, id)[|Without(s[..j], id)|] == s[j]
  {
    WithoutPosition(s, id, i);
    WithoutPosition(s, id, j);
    WithoutPosition(s[..j], id, i);
    assert s[..j][..i] == s[..i];
  }

  /** Removal keeps the store invariant: ids stay distinct and below the counter. */
  lemma WithoutKeepsIds(s: seq<ToastItem>, id: int, bound: int)
    requires IdsDistinct(s) && IdsBelow(s, bound)
    ensures IdsDistinct(Without(s, id)) && IdsBelow(Without(s, id), bound)
  {
    var r := Without(s, id);
    forall i | 0 <= i < |r|
      ensures r[i].id < bound
    {
      WithoutMembers(s, id, r[i]);
    }
    forall i, j | 0 <= i < j < |r|
      ensures r[i].id != r[j].id
    {
      WithoutMembers(s, id, r[i]);
      WithoutMembers(s, id, r[j]);
      var p :| 0 <= p < |s| && s[p] == r[i];
      var q :| 0 <= q < |s| && s[q] == r[j];
      if p == q {
        DistinctPositions(s, id, i, j);
      }
    }
  }

  /** Two different positions of the filtered list never hold the same item, when ids are distinct. */
  lemma {:induction false} DistinctPositions(s: seq<ToastItem>, id: int, i: nat, j: nat)
    requires IdsDistinct(s)
    requires i < j < |Without(s, id)|
    ensures Without(s, id)[i] != Without(s, id)[j]
  {
    assert s != [];
    var r := Without(s, id);
    var head := if s[0].id == id then [] else [s[0]];
    var tail := Without(s[1..], id);
    assert r == head + tail;
    assert IdsDistinct(s[1..]) by {
      forall p, q | 0 <= p < q < |s[1..]| ensures s[1..][p].id != s[1..][q].id {
        assert s[1..][p] == s[p + 1] && s[1..][q] == s[q + 1];
      }
    }
    if head == [] {
      DistinctPositions(s[1..], id, i, j);
    } else if i == 0 {
      assert r[j] == tail[j - 1];
      WithoutMembers(s[1..], id, tail[j - 1]);
      var q :| 0 <= q < |s[1..]| && s[1..][q] == tail[j - 1];
      assert s[q + 1].id != s[0].id;
    } else {
      assert r[i] == tail[i - 1] && r[j] == tail[j - 1];
      DistinctPositions(s[1..], id, i - 1, j - 1);
    }
  }

  /** A list in issue order carries no id twice. */
  lemma IncreasingDistinct(s: seq<ToastItem>)
    requires IdsIncreasing(s)
    ensures IdsDistinct(s)
  {
  }

  /** Removal keeps the list in issue order. */
  lemma {:induction false} WithoutKeepsIncreasing(s: seq<ToastItem>, id: int)
    requires IdsIncreasing(s)
    ensures IdsIncreasing(Without(s, id))
  {
    if s != [] {
      var tail := Without(s[1..], id);
      assert IdsIncreasing(s[1..]) by {
        forall p, q | 0 <= p < q < |s[1..]| ensures s[1..][p].id < s[1..][q].id {
          assert s[1..][p] == s[p + 1] && s[1..][q] == s[q + 1];
        }
      }
      WithoutKeepsIncreasing(s[1..], id);
      if s[0].id != id {
        var r := [s[0]] + tail;
        forall p, q | 0 <= p < q < |r| ensures r[p].id < r[q].id {
          if p == 0 {
            assert r[q] == tail[q - 1];
            WithoutMembers(s[1..], id, tail[q - 1]);
            var k :| 0 <= k < |s[1..]| && s[1..][k] == tail[q - 1];
            assert s[k + 1] == tail[q - 1];
          } else {
            assert r[p] == tail[p - 1] && r[q] == tail[q - 1];
          }
        }
      }
    }
  }

  /**
   * Appending an item whose id is the counter keeps the list in issue order
   * and its ids below the incremented counter.
   */
  lemma AppendKeepsIds(s: seq<ToastItem>, bound: int, t: ToastItem)
    requires IdsIncreasing(s) && IdsBelow(s, bound) && t.id == bound
    ensures IdsIncreasing(s + [t]) && IdsBelow(s + [t], bound + 1)
  {
  }

  /** Removing the id of the item just appended, when no older item has it, restores the list. */
  lemma DismissLastRestores(s: seq<ToastItem>, t: ToastItem)
    requires !HasId(s, t.id)
    ensures Without(s + [t], t.id) == s
  {
    WithoutConcat(s, [t], t.id);
    WithoutAbsent(s, t.id);
    assert [t][1..] == [];
  }
}
