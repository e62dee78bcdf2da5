/** The separate-chaining hash map of `src/HashMap.h`: an array of
    `HASH_SIZE + 1` bucket heads, each the head of a doubly linked chain of
    nodes, with new nodes pushed at the head of their chain. A chain is
    modelled as the sequence of its entries, head first; the iterator, which
    holds a node pointer, is modelled by the node's bucket and its offset from
    the chain head. */
module HashMaps {
  import opened MapCommon
  import opened HashChains

  /** An iterator position: entry `offset` of the chain of bucket `bucket`,
      or `end()`. */
  datatype Cursor = At(bucket: nat, offset: nat) | End

  class HashMap {
    /** `std::hash<key_type>`: the table's hash function, fixed for the map's
        life; its code is not part of this model. */
    const hash: int -> nat
    /** The bucket heads; `arr.Length` is the length `arr` was allocated with. */
    var arr: array<Chain>
    /** `HASH_SIZE`, the number of buckets keys are hashed into. */
    var hashSize: nat
    var size: nat
    /** The key-value map the table represents. */
    ghost var contents: map<int, int>

    /** The class invariant. `clear()` resets `HASH_SIZE` to 2 but keeps the
        allocated array, so `arr` may be longer than `HASH_SIZE + 1`; all
        buckets from `HASH_SIZE` on are empty. */
    ghost predicate Valid()
      reads this, arr
    {
      && 2 <= hashSize < arr.Length
      && size == |contents| && size < hashSize
      && ChainsValid(arr[..], hash, hashSize, contents)
    }

    /** The entries in iteration order: bucket by bucket, head first. */
    ghost function Entries(): seq<Entry>
      reads this, arr
    {
      Flatten(arr[..])
    }

    /** `c` designates a node of the table, or is `end()`. */
    ghost predicate ValidCursor(c: Cursor)
      reads this, arr
    {
      c.End? || (c.bucket < hashSize && c.bucket < arr.Length && c.offset < |arr[c.bucket]|)
    }

    /** The place of `c` in iteration order; `end()` comes after all `size` entries. */
    ghost function Position(c: Cursor): nat
      reads this, arr
      requires ValidCursor(c)
    {
      if c.End? then size else |FlattenTo(arr[..], c.bucket)| + c.offset
    }

    /** A node cursor designates entry `Position(c)` of the iteration order. */
    lemma PositionAt(c: Cursor)
      requires Valid() && ValidCursor(c) && c.At?
      ensures Position(c) < size && Entries()[Position(c)] == arr[c.bucket][c.offset]
    {
      FlattenAt(arr[..], c.bucket, c.offset);
    }

    /** A node cursor comes before `end()`. */
    lemma PositionBound(c: Cursor)
      requires Valid() && ValidCursor(c)
      ensures Position(c) <= size && (c.At? ==> Position(c) < size)
    {
      if c.At? {
        PositionAt(c);
      }
    }

    /** The iteration order lists every entry once and denotes the map. */
    lemma EntriesDenote()
      requires Valid()
      ensures |Entries()| == size && EntriesMap(Entries()) == contents
    {
      FlattenDenotes(arr[..], hash, hashSize, contents);
    }

    /** `HashMap()`: two buckets and the always empty extra slot. */
    constructor (hash: int -> nat)
      ensures Valid() && fresh(arr)
      ensures this.hash == hash && hashSize == 2 && contents == map[]
    {
      this.hash := hash;
      hashSize := 2;
      size := 0;
      arr := new Chain[3](_ => []);
      contents := map[];
      new;
      EmptyChainsValid(arr[..], hash, 2);
    }

    /** `HashMap(std::initializer_list)`: the pairs are added from left to
        right, so a later pair overwrites an earlier one with the same key. */
    constructor FromList(hash: int -> nat, list: seq<Entry>)
      ensures Valid() && fresh(arr)
      ensures this.hash == hash && contents == EntriesMap(list)
    {
      this.hash := hash;
      hashSize := 2;
      size := 0;
      arr := new Chain[3](_ => []);
      contents := map[];
      new;
      EmptyChainsValid(arr[..], hash, 2);
      AddEntries(list);
      MapUnionEmptyLeft(EntriesMap(list));
    }

    /** `HashMap(const HashMap&)`, as intended: a table of the same
        `HASH_SIZE` with every chain in the same order as in `other`, so that
        the copy iterates the same pairs and compares equal to `other`. */
    constructor Copy(other: HashMap)
      requires other.Valid()
      ensures Valid() && fresh(arr)
      ensures hash == other.hash && hashSize == other.hashSize && contents == other.contents
      ensures arr.Length == hashSize + 1 && forall b :: 0 <= b < arr.Length ==> arr[b] == other.arr[b]
      ensures Entries() == other.Entries()
    {
      hash := other.hash;
      hashSize := other.hashSize;
      size := 0;
      arr := new Chain[other.hashSize + 1](_ => []);
      contents := map[];
      new;
      EmptyChainsValid(arr[..], hash, hashSize);
      CopyBuckets(other.arr[..], other.contents, true);
      SameLeadingBuckets(arr[..], other.arr[..]);
    }

    /** `HashMap(const HashMap&)` as written at `src/HashMap.h:137-144`: the
        entries of `other` are added in its iteration order to a table of the
        same `HASH_SIZE`. As `add` pushes at the head, every chain comes out
        reversed. */
    constructor CopyAsWritten(other: HashMap)
      requires other.Valid()
      ensures Valid() && fresh(arr)
      ensures hash == other.hash && hashSize == other.hashSize && contents == other.contents
      ensures arr.Length == hashSize + 1 && forall b :: 0 <= b < arr.Length ==> arr[b] == Reverse(other.arr[b])
    {
      hash := other.hash;
      hashSize := other.hashSize;
      size := 0;
      arr := new Chain[other.hashSize + 1](_ => []);
      contents := map[];
      new;
      EmptyChainsValid(arr[..], hash, hashSize);
      CopyBuckets(other.arr[..], other.contents, false);
    }

    /** The copying loop, bucket by bucket, which is the iteration order of
        the copied table `src`, holding `cont`: each chain of `src` is added
        to the same, still empty bucket of this table, either in its
        iteration order (which reverses it) or, when `keepOrder`, from its
        tail. No `add` rehashes, since `src` holds fewer than `HASH_SIZE`
        entries. */
    method CopyBuckets(src: seq<Chain>, ghost cont: map<int, int>, keepOrder: bool)
      requires Valid() && ChainsValid(src, hash, hashSize, cont) && |cont| < hashSize < |src|
      requires size == 0 && arr.Length == hashSize + 1
      requires forall i :: 0 <= i < arr.Length ==> arr[i] == []
      modifies this, arr
      ensures Valid() && arr == old(arr) && hashSize == old(hashSize) && contents == cont
      ensures forall b :: 0 <= b < arr.Length ==> arr[b] == Copied(src[b], keepOrder)
    {
      var b := 0;
      assert arr[..] == CopiedTable(src, 0, arr.Length, keepOrder);
      while b < hashSize
        invariant 0 <= b <= hashSize
        invariant Valid() && arr == old(arr) && hashSize == old(hashSize)
        invariant size == |FlattenTo(src, b)|
        invariant arr[..] == CopiedTable(src, b, arr.Length, keepOrder)
      {
        CopyBucket(src, cont, b, keepOrder);
        CopiedTableStep(src, b, arr.Length, keepOrder);
        b := b + 1;
      }
      CopiedSameMap(src, arr[..], hash, hashSize, cont, contents, keepOrder);
    }

    /** One round of the copying loop: the chain of bucket `b` of `src`. */
    method CopyBucket(src: seq<Chain>, ghost cont: map<int, int>, b: nat, keepOrder: bool)
      requires Valid() && ChainsValid(src, hash, hashSize, cont) && |cont| < hashSize < |src| && b < hashSize
      requires size == |FlattenTo(src, b)| && arr[b] == []
      modifies this, arr
      ensures Valid() && arr == old(arr) && hashSize == old(hashSize) && size == |FlattenTo(src, b + 1)|
      ensures arr[..] == old(arr[..])[b := Copied(src[b], keepOrder)]
    {
      assert ChainOk(src[b], hash, hashSize, b, cont);
      FlattenToPrefix(src, b + 1, |src|);
      if keepOrder {
        AddChainBackwards(src[b], b);
      } else {
        AddChain(src[b], b);
      }
    }

    /** `add` the entries of `chain`, head first, to the empty bucket `b`
        they all hash to: each is pushed at the head, so the bucket ends up
        holding `chain` reversed. */
    method AddChain(chain: Chain, b: nat)
      requires Valid() && b < hashSize && arr[b] == [] && size + |chain| < hashSize
      requires forall j :: 0 <= j < |chain| ==> HashFun(chain[j].0) == b
      requires forall j1, j2 :: 0 <= j1 < j2 < |chain| ==> chain[j1].0 != chain[j2].0
      modifies this, arr
      ensures Valid() && arr == old(arr) && hashSize == old(hashSize) && size == old(size) + |chain|
      ensures arr[b] == Reverse(chain)
      ensures forall i :: 0 <= i < arr.Length && i != b ==> arr[i] == old(arr[i])
    {
      var j := 0;
      while j < |chain|
        invariant 0 <= j <= |chain|
        invariant Valid() && arr == old(arr) && hashSize == old(hashSize) && size == old(size) + j
        invariant arr[b] == Reverse(chain[..j])
        invariant forall i :: 0 <= i < arr.Length && i != b ==> arr[i] == old(arr[i])
      {
        var k := chain[j].0;
        assert forall i :: 0 <= i < |arr[b]| ==> arr[b][i] == chain[j - 1 - i];
        assert !KeyIn(arr[..][Slot(hash, hashSize, k)], k);
        var c := Add(k, chain[j].1);
        ReverseSnoc(chain, j);
        j := j + 1;
      }
      assert chain[..j] == chain;
    }

    /** `add` the entries of `chain`, tail first, to the empty bucket `b`
        they all hash to: the bucket ends up holding `chain` itself. */
    method AddChainBackwards(chain: Chain, b: nat)
      requires Valid() && b < hashSize && arr[b] == [] && size + |chain| < hashSize
      requires forall j :: 0 <= j < |chain| ==> HashFun(chain[j].0) == b
      requires forall j1, j2 :: 0 <= j1 < j2 < |chain| ==> chain[j1].0 != chain[j2].0
      modifies this, arr
      ensures Valid() && arr == old(arr) && hashSize == old(hashSize) && size == old(size) + |chain|
      ensures arr[b] == chain
      ensures forall i :: 0 <= i < arr.Length && i != b ==> arr[i] == old(arr[i])
    {
      var j := |chain|;
      while j > 0
        invariant 0 <= j <= |chain|
        invariant Valid() && arr == old(arr) && hashSize == old(hashSize) && size == old(size) + (|chain| - j)
        invariant arr[b] == chain[j..]
        invariant forall i :: 0 <= i < arr.Length && i != b ==> arr[i] == old(arr[i])
      {
        var k := chain[j - 1].0;
        assert forall i :: 0 <= i < |arr[b]| ==> arr[b][i] == chain[j + i];
        assert !KeyIn(arr[..][Slot(hash, hashSize, k)], k);
        var c := Add(k, chain[j - 1].1);
        assert [chain[j - 1]] + chain[j..] == chain[j - 1..];
        j := j - 1;
      }
    }

    /** `hashFun`: the bucket of `k`. */
    function HashFun(k: int): (b: nat)
      reads this
      requires hashSize > 0
      ensures b < hashSize
    {
      Slot(hash, hashSize, k)
    }

    /** `findNode`: the offset of `k` in the chain of its bucket, or -1 when
        the key is absent. */
    method FindNode(k: int) returns (j: int)
      requires Valid()
      ensures -1 <= j < |arr[HashFun(k)]|
      ensures j == -1 <==> k !in contents
      ensures j >= 0 ==> arr[HashFun(k)][j] == (k, contents[k])
    {
      var chain := arr[HashFun(k)];
      assert ChainOk(arr[..][HashFun(k)], hash, hashSize, HashFun(k), contents);
      j := 0;
      while j < |chain|
        invariant 0 <= j <= |chain|
        invariant forall j' :: 0 <= j' < j ==> chain[j'].0 != k
      {
        if chain[j].0 == k {
          return;
        }
        j := j + 1;
      }
      assert !KeyIn(arr[..][HashFun(k)], k);
      j := -1;
    }

    /** `add`: overwrite the value of a present key in place; otherwise grow
        the table first when it is full (`size == HASH_SIZE - 1`) and push a
        new node at the head of the key's chain. The result points at the
        key's node. */
    method Add(k: int, v: int) returns (c: Cursor)
      requires Valid()
      modifies this, arr
      ensures Valid() && (arr == old(arr) || fresh(arr))
      ensures contents == old(contents)[k := v]
      ensures ValidCursor(c) && c.At? && c.bucket == HashFun(k) && arr[c.bucket][c.offset] == (k, v)
      ensures k in old(contents) ==> arr == old(arr) && hashSize == old(hashSize) && size == old(size)
      ensures k in old(contents) ==> c.offset < |old(arr[..])[c.bucket]| && arr[..] == old(arr[..])[c.bucket := old(arr[..])[c.bucket][c.offset := (k, v)]]
      ensures k !in old(contents) ==> size == old(size) + 1 && c.offset == 0
      ensures k !in old(contents) && old(size) < old(hashSize) - 1 ==>
        arr == old(arr) && hashSize == old(hashSize) && arr[..] == old(arr[..])[c.bucket := [(k, v)] + old(arr[..])[c.bucket]]
      ensures k !in old(contents) && old(size) == old(hashSize) - 1 ==> fresh(arr) && hashSize == 2 * old(hashSize)
    {
      var j := FindNode(k);
      if j >= 0 {
        var b := HashFun(k);
        OverwriteValid(arr[..], hash, hashSize, contents, b, j, v);
        arr[b] := arr[b][j := (k, v)];
        contents := contents[k := v];
        c := At(b, j);
        return;
      }
      if size == hashSize - 1 {
        Rehash();
      }
      var b := HashFun(k);
      PrependValid(arr[..], hash, hashSize, contents, k, v);
      arr[b] := [(k, v)] + arr[b];
      size := size + 1;
      contents := contents[k := v];
      c := At(b, 0);
    }

    /** `rehash`: move every entry, in iteration order, to the head of its
        chain in a fresh array of `2 * HASH_SIZE + 1` buckets. The new nodes
        must be linked into the new array; `src/HashMap.h:93` stores the node
        into the old `arr` instead, which this model does not follow. */
    method Rehash()
      requires Valid() && size == hashSize - 1
      modifies this
      ensures Valid() && fresh(arr)
      ensures hashSize == 2 * old(hashSize) && size == old(size) && contents == old(contents)
    {
      var newMax := hashSize * 2;
      var newArr := new Chain[newMax + 1](_ => []);
      ghost var done: map<int, int> := map[];
      EmptyChainsValid(newArr[..], hash, newMax);
      var i := 0;
      while i < hashSize
        invariant 0 <= i <= hashSize
        invariant newArr.Length == newMax + 1
        invariant ChainsValid(newArr[..], hash, newMax, done)
        invariant forall key :: key in done <==> key in contents && Slot(hash, hashSize, key) < i
        invariant forall key :: key in done ==> done[key] == contents[key]
        modifies newArr
      {
        var c := arr[i];
        assert ChainOk(arr[..][i], hash, hashSize, i, contents);
        ChainDenotes(arr[..], hash, hashSize, contents, i);
        ghost var below := done;
        done := MoveChain(hash, newArr, newMax, c, done);
        UnionBucket(below, EntriesMap(c), contents, hash, hashSize, i);
        i := i + 1;
      }
      forall key | key in contents
        ensures key in done
      {
        assert Slot(hash, hashSize, key) < hashSize;
      }
      MapExtensional(done, contents);
      size := newMax / 2 - 1;
      arr := newArr;
      hashSize := newMax;
    }

    /** `clear`: empty every bucket and reset `HASH_SIZE` to 2, keeping the
        allocated array. */
    method Clear()
      requires Valid()
      modifies this, arr
      ensures Valid() && arr == old(arr)
      ensures hashSize == 2 && size == 0 && contents == map[]
    {
      if size != 0 {
        var i := 0;
        while i < hashSize + 1
          invariant 0 <= i <= hashSize + 1
          invariant forall i' :: 0 <= i' < i ==> arr[i'] == []
          invariant forall i' :: i <= i' < arr.Length ==> arr[i'] == old(arr[i'])
          modifies arr
        {
          if arr[i] != [] {
            arr[i] := [];
          }
          i := i + 1;
        }
        forall i' | hashSize + 1 <= i' < arr.Length
          ensures arr[i'] == []
        {
          assert old(arr[..])[i'] == old(arr[i']);
        }
      } else {
        FlattenEmpty(arr[..]);
      }
      size := 0;
      hashSize := 2;
      contents := map[];
      EmptyChainsValid(arr[..], hash, 2);
    }

    /** Copy assignment: unless assigning to itself, clear and add the
        entries of `other` in its iteration order. The two tables own
        distinct arrays. */
    method Assign(other: HashMap)
      requires Valid() && other.Valid()
      requires other != this ==> other.arr != arr
      modifies this, arr
      ensures Valid() && (arr == old(arr) || fresh(arr))
      ensures contents == other.contents
      ensures other == this ==> arr[..] == old(arr[..]) && hashSize == old(hashSize)
    {
      if this == other {
        return;
      }
      other.EntriesDenote();
      var entries := Flatten(other.arr[..]);
      Clear();
      AddEntries(entries);
      MapUnionEmptyLeft(other.contents);
    }

    /** The loop of the list constructor, the copy constructor and copy
        assignment: `add` the pairs of `list` from left to right. The copies
        pass the entries of the source table in its iteration order. */
    method AddEntries(list: seq<Entry>)
      requires Valid()
      modifies this, arr
      ensures Valid() && (arr == old(arr) || fresh(arr))
      ensures contents == old(contents) + EntriesMap(list)
    {
      ghost var base := contents;
      MapUnionEmpty(base);
      var i := 0;
      while i < |list|
        invariant 0 <= i <= |list|
        invariant Valid() && (arr == old(arr) || fresh(arr))
        invariant contents == base + EntriesMap(list[..i])
      {
        var c := Add(list[i].0, list[i].1);
        EntriesMapUnionSnoc(base, list, i);
        i := i + 1;
      }
      assert list[..i] == list;
    }

    /** `isEmpty`. */
    function IsEmpty(): (r: bool)
      reads this, arr
      requires Valid()
      ensures r <==> contents == map[]
    {
      size == 0
    }

    /** `getSize`: the number of keys. */
    function GetSize(): (n: nat)
      reads this, arr
      requires Valid()
      ensures n == |contents| && n == |Entries()|
    {
      EntriesDenote();
      size
    }

    /** `operator[]`, as intended: the value of `k`, which is inserted with
        the default value 0 when absent; a present value is left alone. */
    method Subscript(k: int) returns (v: int)
      requires Valid()
      modifies this, arr
      ensures Valid() && (arr == old(arr) || fresh(arr))
      ensures k in old(contents) ==> contents == old(contents) && arr == old(arr) && arr[..] == old(arr[..])
      ensures k !in old(contents) ==> contents == old(contents)[k := 0]
      ensures k in contents && v == contents[k]
    {
      var j := FindNode(k);
      if j >= 0 {
        v := arr[HashFun(k)][j].1;
      } else {
        var c := Add(k, 0);
        v := 0;
      }
    }

    /** `operator[]` as written in `src/HashMap.h:176-179`: it calls `add`
        with the default value, which overwrites the value of a present key. */
    method SubscriptAsWritten(k: int) returns (v: int)
      requires Valid()
      modifies this, arr
      ensures Valid() && (arr == old(arr) || fresh(arr))
      ensures contents == old(contents)[k := 0] && v == 0
    {
      var c := Add(k, 0);
      v := arr[c.bucket][c.offset].1;
    }

    /** `valueOf`: the value of `k`, or `std::out_of_range` when absent. */
    method ValueOf(k: int) returns (r: Result<int>)
      requires Valid()
      ensures k in contents ==> r == Ok(contents[k])
      ensures k !in contents ==> r == Err(KeyNotFound)
    {
      var j := FindNode(k);
      if j < 0 {
        return Err(KeyNotFound);
      }
      r := Ok(arr[HashFun(k)][j].1);
    }

    /** `find`: a cursor at the node of `k`, or `end()` when absent. */
    method Find(k: int) returns (c: Cursor)
      requires Valid()
      ensures ValidCursor(c)
      ensures c.End? <==> k !in contents
      ensures c.At? ==> Position(c) < |Entries()| && Entries()[Position(c)] == (k, contents[k])
    {
      var j := FindNode(k);
      if j < 0 {
        return End;
      }
      c := At(HashFun(k), j);
      PositionAt(c);
    }

    /** `remove(key)`: unlink the key's node from its chain, or throw when
        the key is absent. Of the four unlinking cases, the head of a chain
        with successors must also move the bucket head to the successor;
        `src/HashMap.h:213-214` leaves it on the deleted node, which this
        model does not follow. */
    method Remove(k: int) returns (r: Outcome)
      requires Valid()
      modifies this, arr
      ensures Valid() && arr == old(arr) && hashSize == old(hashSize)
      ensures k !in old(contents) ==> r == Fail(KeyNotFound) && contents == old(contents) && size == old(size) && arr[..] == old(arr[..])
      ensures k in old(contents) ==> r == Pass && contents == old(contents) - {k} && size == old(size) - 1
      ensures forall i :: 0 <= i < arr.Length && i != HashFun(k) ==> arr[i] == old(arr[i])
      ensures k in old(contents) ==>
        exists j :: 0 <= j < |old(arr[HashFun(k)])| && old(arr[HashFun(k)])[j].0 == k && arr[HashFun(k)] == old(arr[HashFun(k)])[..j] + old(arr[HashFun(k)])[j + 1..]
    {
      var j := FindNode(k);
      if j < 0 {
        return Fail(KeyNotFound);
      }
      var b := HashFun(k);
      var chain := arr[b];
      var rest: Chain;
      if j > 0 && j + 1 < |chain| {
        rest := chain[..j] + chain[j + 1..];
      } else if j > 0 {
        rest := chain[..j];
      } else if j + 1 < |chain| {
        rest := chain[1..];
      } else {
        rest := [];
      }
      assert rest == chain[..j] + chain[j + 1..];
      UnlinkValid(arr[..], hash, hashSize, contents, b, j);
      arr[b] := rest;
      assert |contents - {k}| == |contents| - 1;
      size := size - 1;
      contents := contents - {k};
      r := Pass;
    }

    /** `remove(iterator)`: throw at `end()`, else remove the key the
        iterator designates. */
    method RemoveAt(c: Cursor) returns (r: Outcome)
      requires Valid() && ValidCursor(c)
      modifies this, arr
      ensures Valid() && arr == old(arr) && hashSize == old(hashSize)
      ensures c.End? ==> r == Fail(InvalidIterator) && contents == old(contents) && arr[..] == old(arr[..])
      ensures c.At? ==> r == Pass && old(arr[c.bucket][c.offset].0) in old(contents)
      ensures c.At? ==> contents == old(contents) - {old(arr[c.bucket][c.offset].0)} && size == old(size) - 1
      ensures c.At? ==> arr[c.bucket] == old(arr[c.bucket])[..c.offset] + old(arr[c.bucket])[c.offset + 1..]
      ensures forall i :: 0 <= i < arr.Length && (c.End? || i != c.bucket) ==> arr[i] == old(arr[i])
    {
      if c.End? {
        return Fail(InvalidIterator);
      }
      ghost var chain := arr[c.bucket];
      assert ChainOk(arr[..][c.bucket], hash, hashSize, c.bucket, contents);
      r := Remove(arr[c.bucket][c.offset].0);
      ghost var j :| 0 <= j < |chain| && chain[j].0 == chain[c.offset].0 && arr[c.bucket] == chain[..j] + chain[j + 1..];
      assert j == c.offset;
    }

    /** `operator==`: both empty, or the same size and the same entries in
        the same iteration order. Two tables holding the same map in a
        different bucket layout compare unequal. */
    method Equal(other: HashMap) returns (r: bool)
      requires Valid() && other.Valid()
      ensures r <==> Entries() == other.Entries()
      ensures r ==> contents == other.contents
    {
      ghost var mine := Entries();
      ghost var theirs := other.Entries();
      if size + other.size == 0 {
        EntriesDenote();
        other.EntriesDenote();
        return true;
      }
      if size != other.size {
        EntriesDenote();
        other.EntriesDenote();
        return false;
      }
      var it := Begin();
      var itOther := other.Begin();
      r := SameFrom(other, it, itOther);
      if r {
        EntriesDenote();
        other.EntriesDenote();
      }
    }

    /** The loop of `operator==`: compare the entries under the two iterators
        and advance both, until one reaches `end()`. */
    method SameFrom(other: HashMap, it0: Cursor, itOther0: Cursor) returns (r: bool)
      requires Valid() && other.Valid() && size == other.size
      requires ValidCursor(it0) && other.ValidCursor(itOther0)
      requires Position(it0) == 0 && other.Position(itOther0) == 0
      ensures r <==> Entries() == other.Entries()
    {
      ghost var mine := Entries();
      ghost var theirs := other.Entries();
      var it, itOther := it0, itOther0;
      ghost var n := 0;
      while it != End && itOther != End
        invariant Valid() && other.Valid() && mine == Entries() && theirs == other.Entries()
        invariant ValidCursor(it) && other.ValidCursor(itOther)
        invariant Position(it) == n && other.Position(itOther) == n
        invariant AgreeUpTo(mine, theirs, n)
        decreases |mine| - n
      {
        var same;
        same, it, itOther := SameStep(other, it, itOther, mine, theirs, n);
        if !same {
          return false;
        }
        n := n + 1;
      }
      AgreeAtEnd(other, it, itOther, n);
      r := true;
    }

    /** When the loop of `operator==` stops with no mismatch, one iterator
        is at `end()`; as the sizes agree, so is the other, and the
        iteration orders are equal. */
    lemma AgreeAtEnd(other: HashMap, it: Cursor, itOther: Cursor, n: nat)
      requires Valid() && other.Valid() && size == other.size
      requires ValidCursor(it) && other.ValidCursor(itOther) && (it == End || itOther == End)
      requires Position(it) == n && other.Position(itOther) == n
      requires AgreeUpTo(Entries(), other.Entries(), n)
      ensures Entries() == other.Entries()
    {
      PositionBound(it);
      other.PositionBound(itOther);
      EntriesDenote();
      other.EntriesDenote();
      AgreeUpToEqual(Entries(), other.Entries(), size);
      assert Entries() == Entries()[..size] && other.Entries() == other.Entries()[..size];
    }

    /** One round of the loop of `operator==`: compare entry `n` of the two
        iteration orders, under the two iterators, and, when they agree,
        advance both. */
    method SameStep(other: HashMap, it: Cursor, itOther: Cursor,
                    ghost mine: seq<Entry>, ghost theirs: seq<Entry>, ghost n: nat)
      returns (same: bool, it': Cursor, itOther': Cursor)
      requires Valid() && other.Valid() && mine == Entries() && theirs == other.Entries()
      requires ValidCursor(it) && other.ValidCursor(itOther) && it.At? && itOther.At?
      requires Position(it) == n && other.Position(itOther) == n
      ensures Valid() && other.Valid() && mine == Entries() && theirs == other.Entries()
      ensures n < |mine| && n < |theirs| && (same <==> mine[n] == theirs[n])
      ensures same ==> ValidCursor(it') && Position(it') == n + 1
      ensures same ==> other.ValidCursor(itOther') && other.Position(itOther') == n + 1
    {
      PositionAt(it);
      other.PositionAt(itOther);
      EntriesDenote();
      other.EntriesDenote();
      if arr[it.bucket][it.offset] != other.arr[itOther.bucket][itOther.offset] {
        return false, it, itOther;
      }
      var next := Next(it);
      var nextOther := other.Next(itOther);
      same, it', itOther' := true, next.value, nextOther.value;
    }

    /** `begin()`: the head of the first non-empty bucket, or `end()` for an
        empty map. */
    method Begin() returns (c: Cursor)
      requires Valid()
      ensures ValidCursor(c) && Position(c) == 0
    {
      if size == 0 {
        return End;
      }
      FlattenEmptyTail(arr[..], hashSize);
      var i := 0;
      while arr[i] == []
        invariant 0 <= i < hashSize
        invariant |FlattenTo(arr[..], i)| == 0
        decreases hashSize - i
      {
        i := i + 1;
      }
      c := At(i, 0);
    }

    /** `operator++`: the next entry in iteration order; throws at `end()`.
        `src/HashMap.h:305` advances by incrementing the node's own cached
        bucket number, which a later `remove` then reads; this model keeps the
        bucket number in a local variable. */
    method Next(c: Cursor) returns (r: Result<Cursor>)
      requires Valid() && ValidCursor(c)
      ensures c.End? ==> r == Err(OutOfRange)
      ensures c.At? ==> r.Ok? && ValidCursor(r.value) && Position(r.value) == Position(c) + 1
    {
      if c.End? {
        return Err(OutOfRange);
      }
      if c.offset + 1 < |arr[c.bucket]| {
        return Ok(At(c.bucket, c.offset + 1));
      }
      FlattenEmptyTail(arr[..], hashSize);
      var b := c.bucket + 1;
      while arr[b] == []
        invariant c.bucket < b <= hashSize
        invariant |FlattenTo(arr[..], b)| == Position(c) + 1
        decreases hashSize - b
      {
        if b >= hashSize {
          return Ok(End);
        }
        b := b + 1;
      }
      r := Ok(At(b, 0));
    }

    /** `operator--`, as intended: the previous entry in iteration order (the
        tail of the nearest non-empty bucket below when at a chain head or at
        `end()`); throws at the first entry. */
    method Prev(c: Cursor) returns (r: Result<Cursor>)
      requires Valid() && ValidCursor(c)
      ensures Position(c) == 0 ==> r == Err(OutOfRange)
      ensures Position(c) > 0 ==> r.Ok? && ValidCursor(r.value) && r.value.At? && Position(r.value) == Position(c) - 1
    {
      if c.At? && c.offset > 0 {
        return Ok(At(c.bucket, c.offset - 1));
      }
      var b := if c.End? then hashSize else c.bucket;
      FlattenEmptyTail(arr[..], hashSize);
      while b > 0 && arr[b - 1] == []
        invariant 0 <= b <= hashSize
        invariant |FlattenTo(arr[..], b)| == Position(c)
      {
        b := b - 1;
      }
      if b == 0 {
        return Err(OutOfRange);
      }
      r := Ok(At(b - 1, |arr[b - 1]| - 1));
    }

    /** `operator--` as written in `src/HashMap.h:324-343`. At `end()` it
        scans down from bucket `HASH_SIZE - 1` and throws on reaching bucket
        0 without looking at it; at a node of bucket 0 it throws even when the
        node has a predecessor; at a chain head elsewhere it takes the tail of
        the node's own bucket, since the scan starts from the bucket number
        before the post-decrement. */
    method PrevAsWritten(c: Cursor) returns (r: Result<Cursor>)
      requires Valid() && ValidCursor(c)
      ensures r.Err? ==> r.error == OutOfRange
      ensures c.End? ==> (r.Err? <==> forall i :: 0 < i < hashSize ==> arr[i] == [])
      ensures c.End? && r.Ok? ==>
        && r.value.At? && 0 < r.value.bucket < hashSize && arr[r.value.bucket] != []
        && r.value.offset == |arr[r.value.bucket]| - 1
        && forall i :: r.value.bucket < i < hashSize ==> arr[i] == []
      ensures c.At? && c.bucket == 0 ==> r == Err(OutOfRange)
      ensures c.At? && c.bucket > 0 && c.offset > 0 ==> r == Ok(At(c.bucket, c.offset - 1))
      ensures c.At? && c.bucket > 0 && c.offset == 0 ==> r == Ok(At(c.bucket, |arr[c.bucket]| - 1))
    {
      if c.End? {
        var h := hashSize - 1;
        while arr[h] == []
          invariant 0 < h < hashSize
          invariant forall i :: h < i < hashSize ==> arr[i] == []
          decreases h
        {
          h := h - 1;
          if h <= 0 {
            return Err(OutOfRange);
          }
        }
        return Ok(At(h, |arr[h]| - 1));
      } else if c.bucket == 0 {
        return Err(OutOfRange);
      } else if c.offset > 0 {
        return Ok(At(c.bucket, c.offset - 1));
      } else {
        return Ok(At(c.bucket, |arr[c.bucket]| - 1));
      }
    }

    /** `operator*`: the entry at the iterator; throws at `end()`. */
    method Deref(c: Cursor) returns (r: Result<Entry>)
      requires Valid() && ValidCursor(c)
      ensures c.End? ==> r == Err(OutOfRange)
      ensures c.At? ==> r.Ok? && Position(c) < size && r.value == Entries()[Position(c)]
    {
      if c.End? {
        return Err(OutOfRange);
      }
      PositionAt(c);
      r := Ok(arr[c.bucket][c.offset]);
    }
  }

  /** One step of `rehash`: link entry `e`, whose key is absent, at the head
      of its chain in `newArr`, a table of `m` buckets holding `done`. */
  method MoveEntry(hash: int -> nat, newArr: array<Chain>, m: nat, e: Entry, ghost done: map<int, int>)
    requires ChainsValid(newArr[..], hash, m, done) && m < newArr.Length
    requires e.0 !in done
    modifies newArr
    ensures ChainsValid(newArr[..], hash, m, done[e.0 := e.1])
  {
    var h := Slot(hash, m, e.0);
    PrependValid(newArr[..], hash, m, done, e.0, e.1);
    newArr[h] := [e] + newArr[h];
  }

  /** The inner loop of `rehash`: prepend the entries of chain `c`, head
      first, to their buckets in `newArr`, a table of `m` buckets holding
      `done`. The keys of `c` are distinct and not yet in `done`. */
  method MoveChain(hash: int -> nat, newArr: array<Chain>, m: nat, c: Chain, ghost done: map<int, int>)
    returns (ghost done': map<int, int>)
    requires ChainsValid(newArr[..], hash, m, done) && m < newArr.Length
    requires forall j :: 0 <= j < |c| ==> c[j].0 !in done
    requires forall j1, j2 :: 0 <= j1 < j2 < |c| ==> c[j1].0 != c[j2].0
    modifies newArr
    ensures ChainsValid(newArr[..], hash, m, done')
    ensures done' == done + EntriesMap(c)
  {
    done' := done;
    MapUnionEmpty(done);
    var j := 0;
    while j < |c|
      invariant 0 <= j <= |c|
      invariant ChainsValid(newArr[..], hash, m, done')
      invariant forall x :: j <= x < |c| ==> c[x].0 !in done'
      invariant done' == done + EntriesMap(c[..j])
    {
      var e := c[j];
      EntriesMapUnionSnoc(done, c, j);
      MoveEntry(hash, newArr, m, e, done');
      done' := done'[e.0 := e.1];
      j := j + 1;
    }
    assert c[..j] == c;
  }

  /** A table whose hash sends every key to bucket 0, holding keys 1 and 2
      in that bucket. */
  method TwoKeysOneBucket() returns (m: HashMap)
    ensures m.Valid() && m.size == 2 && |m.arr[0]| == 2
    ensures forall i :: 0 < i < m.hashSize ==> m.arr[i] == []
  {
    m := new HashMap(k => 0);
    var c1 := m.Add(1, 0);
    var c2 := m.Add(2, 0);
    TwoKeysLayout(m);
  }

  /** A valid table of two entries, with keys 1 and 2 both hashed to bucket
      0, keeps both in bucket 0 and nothing anywhere else. */
  lemma TwoKeysLayout(m: HashMap)
    requires m.Valid() && m.size == 2 && 1 in m.contents && 2 in m.contents
    requires forall k :: m.hash(k) == 0
    ensures |m.arr[0]| == 2 && forall i :: 0 < i < m.arr.Length ==> m.arr[i] == []
  {
    var bs := m.arr[..];
    assert Slot(m.hash, m.hashSize, 1) == 0 && Slot(m.hash, m.hashSize, 2) == 0;
    assert KeyIn(bs[Slot(m.hash, m.hashSize, 1)], 1) && KeyIn(bs[Slot(m.hash, m.hashSize, 2)], 2);
    var j1 :| 0 <= j1 < |bs[0]| && bs[0][j1].0 == 1;
    var j2 :| 0 <= j2 < |bs[0]| && bs[0][j2].0 == 2;
    assert |FlattenTo(bs, 1)| == |bs[0]| >= 2;
    FlattenToPrefix(bs, 1, |bs|);
    forall i | 0 < i < |bs|
      ensures bs[i] == []
    {
      FlattenToPrefix(bs, 1, i);
      FlattenToPrefix(bs, i + 1, |bs|);
      assert |FlattenTo(bs, i + 1)| == |FlattenTo(bs, i)| + |bs[i]|;
    }
  }

  /** In a table whose entries all sit in bucket 0, the `operator--` as
      written throws when stepping back from `end()`, although the map is not
      empty, and when stepping back from the second entry; the intended
      `Prev` reaches the last and the first entry. */
  method PrevCounterexample() returns (m: HashMap, fromEnd: Result<Cursor>, fixedFromEnd: Result<Cursor>,
                                       fromSecond: Result<Cursor>, fixedFromSecond: Result<Cursor>)
    ensures m.Valid() && m.size == 2 && m.ValidCursor(At(0, 1)) && m.Position(At(0, 1)) == 1
    ensures fromEnd == Err(OutOfRange) && fromSecond == Err(OutOfRange)
    ensures fixedFromEnd.Ok? && m.ValidCursor(fixedFromEnd.value) && m.Position(fixedFromEnd.value) == 1
    ensures fixedFromSecond.Ok? && m.ValidCursor(fixedFromSecond.value) && m.Position(fixedFromSecond.value) == 0
  {
    m := TwoKeysOneBucket();
    fromEnd := m.PrevAsWritten(End);
    fixedFromEnd := m.Prev(End);
    fromSecond := m.PrevAsWritten(At(0, 1));
    fixedFromSecond := m.Prev(At(0, 1));
  }

  /** A table whose two keys share bucket 0 compares unequal to its copy
      as written, whose bucket holds them in the other order, and equal to
      the intended copy. */
  method CopyCounterexample() returns (asWritten: bool, fixed: bool)
    ensures !asWritten && fixed
  {
    var m := TwoKeysOneBucket();
    var a := new HashMap.CopyAsWritten(m);
    var c := new HashMap.Copy(m);
    fixed := c.Equal(m);
    asWritten := a.Equal(m);
    assert ChainOk(m.arr[..][0], m.hash, m.hashSize, 0, m.contents);
    FlattenEmptyTail(m.arr[..], 1);
    FlattenEmptyTail(a.arr[..], 1);
    assert a.Entries()[0] == m.arr[0][1] != m.arr[0][0] == m.Entries()[0];
  }

  /** With the `operator[]` as written, reading a stored value through it
      replaces the value by 0; the intended `Subscript` returns it. */
  method SubscriptCounterexample() returns (asWritten: int, fixed: int)
    ensures asWritten == 0 && fixed == 7
  {
    var m := new HashMap(k => 0);
    var c := m.Add(1, 7);
    fixed := m.Subscript(1);
    asWritten := m.SubscriptAsWritten(1);
  }
}
