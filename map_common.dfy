/** Definitions shared by the two containers: the error kinds they raise,
    result wrappers, and the map that an initializer list denotes. */
module MapCommon {

  /** The logical error kinds. The C++ code throws `std::out_of_range` for all
      three; the kind records which contract was violated. The tree map
      reaches its errors through its iterators: `valueOf` of an absent key
      dereferences `end()` (OutOfRange) and `remove` of an absent key removes
      at `end()` (InvalidIterator). */
  datatype MapError =
    | KeyNotFound      // hash map: valueOf / remove(key) of an absent key
    | InvalidIterator  // remove(iterator) given end()
    | OutOfRange       // stepping or dereferencing past a boundary

  datatype Result<T> = Ok(value: T) | Err(error: MapError)

  datatype Outcome = Pass | Fail(error: MapError)

  /** A stored (key, mapped value) pair. */
  type Entry = (int, int)

  /** The map denoted by inserting the pairs of `list` from left to right:
      a later pair with the same key overwrites the value of an earlier one. */
  function EntriesMap(list: seq<Entry>): (m: map<int, int>)
    ensures forall i :: 0 <= i < |list| ==> list[i].0 in m
    ensures forall k :: k in m ==> exists i :: 0 <= i < |list| && list[i].0 == k
    ensures |list| > 0 ==> m[list[|list| - 1].0] == list[|list| - 1].1
  {
    if list == [] then map[]
    else
      var m' := EntriesMap(list[..|list| - 1]);
      assert forall k :: k in m' ==> exists i :: 0 <= i < |list| && list[i].0 == k by {
        forall k | k in m' ensures exists i :: 0 <= i < |list| && list[i].0 == k {
          var i :| 0 <= i < |list| - 1 && list[..|list| - 1][i].0 == k;
          assert list[i].0 == k;
        }
      }
      m'[list[|list| - 1].0 := list[|list| - 1].1]
  }

  /** Extending the list by one pair updates the denoted map at that key. */
  lemma EntriesMapSnoc(list: seq<Entry>, i: nat)
    requires i < |list|
    ensures EntriesMap(list[..i + 1]) == EntriesMap(list[..i])[list[i].0 := list[i].1]
  {
    assert list[..i + 1][..i] == list[..i];
  }

  /** If every pair of `list` agrees with `m`, and every key of `m` occurs in
      `list`, then `list` denotes exactly `m`. */
  lemma {:induction false} EntriesMapExact(list: seq<Entry>, m: map<int, int>)
    requires forall i :: 0 <= i < |list| ==> list[i].0 in m && m[list[i].0] == list[i].1
    requires forall k :: k in m ==> exists i :: 0 <= i < |list| && list[i].0 == k
    ensures EntriesMap(list) == m
  {
    var e := EntriesMap(list);
    assert forall k :: k in e ==> k in m && e[k] == m[k] by {
      forall k | k in e ensures k in m && e[k] == m[k] {
        EntriesMapValue(list, m, k);
      }
    }
    assert forall k :: k in m ==> k in e by {
      forall k | k in m ensures k in e {
        var i :| 0 <= i < |list| && list[i].0 == k;
      }
    }
    assert forall k :: k in e.Keys <==> k in m.Keys;
    assert e.Keys == m.Keys;
  }

  /** Under the agreement hypothesis, the denoted map takes its values from `m`. */
  lemma {:induction false} EntriesMapValue(list: seq<Entry>, m: map<int, int>, k: int)
    requires forall i :: 0 <= i < |list| ==> list[i].0 in m && m[list[i].0] == list[i].1
    requires k in EntriesMap(list)
    ensures k in m && EntriesMap(list)[k] == m[k]
  {
    var n := |list|;
    if list[n - 1].0 != k {
      var init := list[..n - 1];
      assert forall i :: 0 <= i < |init| ==> init[i].0 in m && m[init[i].0] == init[i].1 by {
        forall i | 0 <= i < |init| ensures init[i].0 in m && m[init[i].0] == init[i].1 {
          assert init[i] == list[i];
        }
      }
      EntriesMapValue(init, m, k);
    }
  }

  lemma MapUnionEmpty(a: map<int, int>)
    ensures a + map[] == a
  {
    assert (a + map[]).Keys == a.Keys;
  }

  lemma MapUnionEmptyLeft(a: map<int, int>)
    ensures map[] + a == a
  {
    assert forall k :: k in map[] + a ==> k in a && (map[] + a)[k] == a[k];
    assert forall k :: k in (map[] + a).Keys <==> k in a.Keys;
    assert (map[] + a).Keys == a.Keys;
  }

  /** Updating the right operand of a union updates the union. */
  lemma MapUnionUpdate(a: map<int, int>, b: map<int, int>, k: int, v: int)
    ensures (a + b)[k := v] == a + b[k := v]
  {
    assert ((a + b)[k := v]).Keys == (a + b[k := v]).Keys;
  }

  /** Extending the list by one pair updates a union with the denoted map. */
  lemma EntriesMapUnionSnoc(a: map<int, int>, list: seq<Entry>, i: nat)
    requires i < |list|
    ensures (a + EntriesMap(list[..i]))[list[i].0 := list[i].1] == a + EntriesMap(list[..i + 1])
  {
    EntriesMapSnoc(list, i);
    MapUnionUpdate(a, EntriesMap(list[..i]), list[i].0, list[i].1);
  }

  /** Two maps with the same keys and the same values are equal. */
  lemma MapExtensional(a: map<int, int>, b: map<int, int>)
    requires forall k :: k in a <==> k in b
    requires forall k :: k in a ==> a[k] == b[k]
    ensures a == b
  {
    assert forall k :: k in a ==> k in b && a[k] == b[k];
    assert forall k :: k in a.Keys <==> k in b.Keys;
    assert a.Keys == b.Keys;
  }

  /** The first `n` entries of `a` and `b` exist and agree. */
  predicate AgreeUpTo(a: seq<Entry>, b: seq<Entry>, n: nat)
  {
    n <= |a| && n <= |b| && (n == 0 || (AgreeUpTo(a, b, n - 1) && a[n - 1] == b[n - 1]))
  }

  /** Sequences agreeing up to their common length are equal. */
  lemma {:induction false} AgreeUpToEqual(a: seq<Entry>, b: seq<Entry>, n: nat)
    requires AgreeUpTo(a, b, n)
    ensures a[..n] == b[..n]
  {
    if n > 0 {
      AgreeUpToEqual(a, b, n - 1);
      assert a[..n] == a[..n - 1] + [a[n - 1]];
      assert b[..n] == b[..n - 1] + [b[n - 1]];
    }
  }
}
