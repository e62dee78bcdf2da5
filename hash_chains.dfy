/** The bucket array of the hash map viewed as a value: a sequence of chains,
    each chain listed from its head node along the `next` links. The
    invariant `ChainsValid` and the lemmas that the update operations keep it
    live here, independent of the class that owns the array. */
module HashChains {
  import opened MapCommon

  /** One bucket chain, head first. */
  type Chain = seq<Entry>

  /** The entries of the first `n` chains, chain after chain. */
  function FlattenTo(bs: seq<Chain>, n: nat): seq<Entry>
    requires n <= |bs|
  {
    if n == 0 then [] else FlattenTo(bs, n - 1) + bs[n - 1]
  }

  /** The entries of all chains in iteration order. */
  function Flatten(bs: seq<Chain>): seq<Entry>
  {
    FlattenTo(bs, |bs|)
  }

  /** Key `k` is stored somewhere in chain `c`. */
  predicate KeyIn(c: Chain, k: int)
  {
    exists j :: 0 <= j < |c| && c[j].0 == k
  }

  /** The bucket of key `k` in a table of `m` buckets (`hashFun`). */
  function Slot(hash: int -> nat, m: nat, k: int): (b: nat)
    requires m > 0
    ensures b < m
  {
    hash(k) % m
  }

  /** Chain `c`, stored in bucket `i`, holds only keys of bucket `i`, each once,
      with the values that `cont` gives them. */
  ghost predicate ChainOk(c: Chain, hash: int -> nat, m: nat, i: nat, cont: map<int, int>)
    requires m > 0
  {
    && (forall j :: 0 <= j < |c| ==> Slot(hash, m, c[j].0) == i && c[j].0 in cont && cont[c[j].0] == c[j].1)
    && (forall j1, j2 :: 0 <= j1 < j2 < |c| ==> c[j1].0 != c[j2].0)
  }

  /** The bucket array `bs` holds the map `cont` in a table of `m` buckets:
      every chain is well placed, buckets `m` and above are empty, every key of
      `cont` is stored in its bucket, and there are as many entries as keys. */
  ghost predicate ChainsValid(bs: seq<Chain>, hash: int -> nat, m: nat, cont: map<int, int>)
  {
    && 0 < m <= |bs|
    && (forall i {:trigger ChainOk(bs[i], hash, m, i, cont)} :: 0 <= i < |bs| ==> ChainOk(bs[i], hash, m, i, cont))
    && (forall i :: m <= i < |bs| ==> bs[i] == [])
    && (forall k {:trigger KeyIn(bs[Slot(hash, m, k)], k)} :: k in cont ==> KeyIn(bs[Slot(hash, m, k)], k))
    && |Flatten(bs)| == |cont|
  }

  /** The first `b` chains are a prefix of the first `n`. */
  lemma {:induction false} FlattenToPrefix(bs: seq<Chain>, b: nat, n: nat)
    requires b <= n <= |bs|
    ensures |FlattenTo(bs, b)| <= |FlattenTo(bs, n)|
    ensures forall x :: 0 <= x < |FlattenTo(bs, b)| ==> FlattenTo(bs, n)[x] == FlattenTo(bs, b)[x]
    decreases n
  {
    if b < n {
      FlattenToPrefix(bs, b, n - 1);
    }
  }

  /** Position (b, o) of the bucket array is entry `|FlattenTo(bs, b)| + o`
      of the iteration order. */
  lemma FlattenAt(bs: seq<Chain>, b: nat, o: nat)
    requires b < |bs| && o < |bs[b]|
    ensures |FlattenTo(bs, b)| + o < |Flatten(bs)|
    ensures Flatten(bs)[|FlattenTo(bs, b)| + o] == bs[b][o]
  {
    FlattenToPrefix(bs, b + 1, |bs|);
  }

  /** Replacing bucket `b` changes the number of entries by the change in
      that bucket's length. */
  lemma {:induction false} FlattenToUpdate(bs: seq<Chain>, b: nat, c: Chain, n: nat)
    requires b < |bs| && n <= |bs|
    ensures |FlattenTo(bs[b := c], n)| == |FlattenTo(bs, n)| + (if b < n then |c| - |bs[b]| else 0)
  {
    if n > 0 {
      FlattenToUpdate(bs, b, c, n - 1);
    }
  }

  /** Buckets from `n` on are empty, so they add nothing to the flattening. */
  lemma {:induction false} FlattenEmptyTail(bs: seq<Chain>, n: nat)
    requires n <= |bs|
    requires forall i :: n <= i < |bs| ==> bs[i] == []
    ensures FlattenTo(bs, n) == Flatten(bs)
  {
    FlattenEmptyTailTo(bs, n, |bs|);
  }

  lemma {:induction false} FlattenEmptyTailTo(bs: seq<Chain>, n: nat, k: nat)
    requires n <= k <= |bs|
    requires forall i :: n <= i < |bs| ==> bs[i] == []
    ensures FlattenTo(bs, n) == FlattenTo(bs, k)
    decreases k
  {
    if n < k {
      FlattenEmptyTailTo(bs, n, k - 1);
      assert FlattenTo(bs, k) == FlattenTo(bs, k - 1) + [];
    }
  }

  /** Every entry of the first `n` chains comes from one of them. */
  lemma {:induction false} FlattenMember(bs: seq<Chain>, n: nat, x: nat)
    requires n <= |bs| && x < |FlattenTo(bs, n)|
    ensures exists i, j :: 0 <= i < n && 0 <= j < |bs[i]| && bs[i][j] == FlattenTo(bs, n)[x]
    decreases n
  {
    if x < |FlattenTo(bs, n - 1)| {
      FlattenMember(bs, n - 1, x);
    } else {
      assert bs[n - 1][x - |FlattenTo(bs, n - 1)|] == FlattenTo(bs, n)[x];
    }
  }

  /** An empty flattening means every bucket is empty. */
  lemma FlattenEmpty(bs: seq<Chain>)
    requires |Flatten(bs)| == 0
    ensures forall i :: 0 <= i < |bs| ==> bs[i] == []
  {
    forall i | 0 <= i < |bs| ensures bs[i] == [] {
      if bs[i] != [] {
        FlattenAt(bs, i, 0);
      }
    }
  }

  /** Growing a chain prefix by one entry adds exactly that entry's key. */
  lemma KeyInPrefix(c: Chain, j: nat, k: int)
    requires j < |c|
    ensures KeyIn(c[..j + 1], k) <==> KeyIn(c[..j], k) || c[j].0 == k
  {
    if KeyIn(c[..j + 1], k) && c[j].0 != k {
      var x :| 0 <= x < j + 1 && c[..j + 1][x].0 == k;
      assert c[..j][x].0 == k;
    }
    if KeyIn(c[..j], k) {
      var x :| 0 <= x < j && c[..j][x].0 == k;
      assert c[..j + 1][x].0 == k;
    }
    if c[j].0 == k {
      assert c[..j + 1][j].0 == k;
    }
  }

  /** A table whose buckets are all empty holds the empty map. */
  lemma EmptyChainsValid(bs: seq<Chain>, hash: int -> nat, m: nat)
    requires 0 < m <= |bs|
    requires forall i :: 0 <= i < |bs| ==> bs[i] == []
    ensures ChainsValid(bs, hash, m, map[])
  {
    if |Flatten(bs)| != 0 {
      FlattenMember(bs, |bs|, 0);
    }
  }

  /** A chain of another bucket is untouched by a change of the map at a key
      of bucket `b`. */
  lemma ChainOkOther(c: Chain, hash: int -> nat, m: nat, i: nat, cont: map<int, int>, cont': map<int, int>, b: nat)
    requires m > 0 && i != b
    requires ChainOk(c, hash, m, i, cont)
    requires forall k :: Slot(hash, m, k) != b ==> (k in cont <==> k in cont') && (k in cont ==> cont[k] == cont'[k])
    ensures ChainOk(c, hash, m, i, cont')
  {
  }

  /** Replacing chain `b` by `c` yields a valid table for `cont'` when `c`
      is a well-placed chain for `cont'`, holds every key of `cont'` in
      bucket `b`, the keys of other buckets are unchanged, and the number of
      entries changes as the number of keys does. */
  lemma UpdateValid(bs: seq<Chain>, hash: int -> nat, m: nat, cont: map<int, int>, b: nat, c: Chain, cont': map<int, int>)
    requires ChainsValid(bs, hash, m, cont)
    requires b < |bs| && b < m
    requires ChainOk(c, hash, m, b, cont')
    requires forall k :: Slot(hash, m, k) != b ==> (k in cont <==> k in cont') && (k in cont ==> cont[k] == cont'[k])
    requires forall k :: k in cont' && Slot(hash, m, k) == b ==> KeyIn(c, k)
    requires |cont'| == |cont| - |bs[b]| + |c|
    ensures ChainsValid(bs[b := c], hash, m, cont')
  {
    var bs': seq<Chain> := bs[b := c];
    FlattenToUpdate(bs, b, c, |bs|);
    forall i | 0 <= i < |bs'| && i != b ensures ChainOk(bs'[i], hash, m, i, cont') {
      assert ChainOk(bs[i], hash, m, i, cont);
      ChainOkOther(bs[i], hash, m, i, cont, cont', b);
    }
    forall k | k in cont' && Slot(hash, m, k) != b ensures KeyIn(bs'[Slot(hash, m, k)], k) {
      assert KeyIn(bs[Slot(hash, m, k)], k);
    }
  }

  /** Prepending a new key to its bucket (HashMap::add of an absent key)
      keeps the invariant and adds the key to the map. */
  lemma PrependValid(bs: seq<Chain>, hash: int -> nat, m: nat, cont: map<int, int>, k: int, v: int)
    requires ChainsValid(bs, hash, m, cont)
    requires k !in cont
    ensures ChainsValid(bs[Slot(hash, m, k) := [(k, v)] + bs[Slot(hash, m, k)]], hash, m, cont[k := v])
  {
    var b := Slot(hash, m, k);
    var c: Chain := [(k, v)] + bs[b];
    var cont' := cont[k := v];
    assert ChainOk(bs[b], hash, m, b, cont);
    forall j1, j2 | 0 <= j1 < j2 < |c| ensures c[j1].0 != c[j2].0 {
      assert c[j2] == bs[b][j2 - 1];
      if j1 > 0 {
        assert c[j1] == bs[b][j1 - 1];
      }
    }
    forall j | 0 <= j < |c| ensures Slot(hash, m, c[j].0) == b && c[j].0 in cont' && cont'[c[j].0] == c[j].1 {
      if j > 0 {
        assert c[j] == bs[b][j - 1];
      }
    }
    forall k' | k' in cont' && Slot(hash, m, k') == b ensures KeyIn(c, k') {
      if k' == k {
        assert c[0].0 == k;
      } else {
        assert KeyIn(bs[b], k');
        var j :| 0 <= j < |bs[b]| && bs[b][j].0 == k';
        assert c[j + 1].0 == k';
      }
    }
    UpdateValid(bs, hash, m, cont, b, c, cont');
  }

  /** Overwriting the value of entry (b, j) (HashMap::add of a present key)
      keeps the invariant and updates the map at that key only. */
  lemma OverwriteValid(bs: seq<Chain>, hash: int -> nat, m: nat, cont: map<int, int>, b: nat, j: nat, v: int)
    requires ChainsValid(bs, hash, m, cont)
    requires b < |bs| && j < |bs[b]|
    ensures ChainsValid(bs[b := bs[b][j := (bs[b][j].0, v)]], hash, m, cont[bs[b][j].0 := v])
  {
    var k := bs[b][j].0;
    var c: Chain := bs[b][j := (k, v)];
    var cont' := cont[k := v];
    assert ChainOk(bs[b], hash, m, b, cont);
    forall j1 | 0 <= j1 < |c| ensures Slot(hash, m, c[j1].0) == b && c[j1].0 in cont' && cont'[c[j1].0] == c[j1].1 {
      if j1 != j {
        assert c[j1] == bs[b][j1];
      }
    }
    forall k' | k' in cont' && Slot(hash, m, k') == b ensures KeyIn(c, k') {
      assert KeyIn(bs[b], k');
      var j' :| 0 <= j' < |bs[b]| && bs[b][j'].0 == k';
      assert c[j'].0 == k';
    }
    UpdateValid(bs, hash, m, cont, b, c, cont');
  }

  /** Unlinking entry (b, j) from its chain (HashMap::remove) keeps the
      invariant and removes exactly that key from the map. */
  lemma UnlinkValid(bs: seq<Chain>, hash: int -> nat, m: nat, cont: map<int, int>, b: nat, j: nat)
    requires ChainsValid(bs, hash, m, cont)
    requires b < |bs| && j < |bs[b]|
    ensures ChainsValid(bs[b := bs[b][..j] + bs[b][j + 1..]], hash, m, cont - {bs[b][j].0})
  {
    var k := bs[b][j].0;
    var c: Chain := bs[b][..j] + bs[b][j + 1..];
    var cont' := cont - {k};
    assert cont'.Keys == cont.Keys - {k};
    assert ChainOk(bs[b], hash, m, b, cont);
    forall j1 | 0 <= j1 < |c| ensures Slot(hash, m, c[j1].0) == b && c[j1].0 in cont' && cont'[c[j1].0] == c[j1].1 {
      var jo := if j1 < j then j1 else j1 + 1;
      assert c[j1] == bs[b][jo];
    }
    forall j1, j2 | 0 <= j1 < j2 < |c| ensures c[j1].0 != c[j2].0 {
      var jo1 := if j1 < j then j1 else j1 + 1;
      var jo2 := if j2 < j then j2 else j2 + 1;
      assert c[j1] == bs[b][jo1] && c[j2] == bs[b][jo2];
    }
    forall k' | k' in cont' && Slot(hash, m, k') == b ensures KeyIn(c, k') {
      assert KeyIn(bs[b], k');
      var j' :| 0 <= j' < |bs[b]| && bs[b][j'].0 == k';
      var jn := if j' < j then j' else j' - 1;
      assert c[jn].0 == k';
    }
    UpdateValid(bs, hash, m, cont, b, c, cont');
  }

  /** Chain `i` of a valid table denotes the part of the map whose keys
      hash to bucket `i`. */
  lemma ChainDenotes(bs: seq<Chain>, hash: int -> nat, m: nat, cont: map<int, int>, i: nat)
    requires ChainsValid(bs, hash, m, cont) && i < |bs|
    ensures forall k :: k in EntriesMap(bs[i]) <==> k in cont && Slot(hash, m, k) == i
    ensures forall k :: k in EntriesMap(bs[i]) ==> EntriesMap(bs[i])[k] == cont[k]
  {
    var c := bs[i];
    assert ChainOk(c, hash, m, i, cont);
    forall k | k in cont && Slot(hash, m, k) == i
      ensures k in EntriesMap(c)
    {
      assert KeyIn(bs[Slot(hash, m, k)], k);
    }
    forall k | k in EntriesMap(c)
      ensures k in cont && Slot(hash, m, k) == i && EntriesMap(c)[k] == cont[k]
    {
      EntriesMapValue(c, cont, k);
    }
  }

  /** Adding the part of the map for bucket `i` to the part for the buckets
      below `i` gives the part for the buckets up to `i`. */
  lemma UnionBucket(done: map<int, int>, e: map<int, int>, cont: map<int, int>, hash: int -> nat, m: nat, i: nat)
    requires m > 0
    requires forall k :: k in done <==> k in cont && Slot(hash, m, k) < i
    requires forall k :: k in done ==> done[k] == cont[k]
    requires forall k :: k in e <==> k in cont && Slot(hash, m, k) == i
    requires forall k :: k in e ==> e[k] == cont[k]
    ensures forall k :: k in done + e <==> k in cont && Slot(hash, m, k) < i + 1
    ensures forall k :: k in done + e ==> (done + e)[k] == cont[k]
  {
  }

  /** The iteration order of a valid table denotes exactly its map: copying
      a table entry by entry in iteration order reproduces its contents. */
  lemma FlattenDenotes(bs: seq<Chain>, hash: int -> nat, m: nat, cont: map<int, int>)
    requires ChainsValid(bs, hash, m, cont)
    ensures EntriesMap(Flatten(bs)) == cont
  {
    var f := Flatten(bs);
    forall x | 0 <= x < |f| ensures f[x].0 in cont && cont[f[x].0] == f[x].1 {
      FlattenMember(bs, |bs|, x);
      var i, j :| 0 <= i < |bs| && 0 <= j < |bs[i]| && bs[i][j] == f[x];
      assert ChainOk(bs[i], hash, m, i, cont);
    }
    forall k | k in cont ensures exists x :: 0 <= x < |f| && f[x].0 == k {
      var b := Slot(hash, m, k);
      assert KeyIn(bs[b], k);
      var j :| 0 <= j < |bs[b]| && bs[b][j].0 == k;
      FlattenAt(bs, b, j);
    }
    EntriesMapExact(f, cont);
  }

  /** A chain rebuilt by pushing the entries of `c` at the head, first entry
      first: `c` backwards. */
  function Reverse(c: Chain): (r: Chain)
    ensures |r| == |c| && forall i :: 0 <= i < |c| ==> r[i] == c[|c| - 1 - i]
  {
    if c == [] then [] else Reverse(c[1..]) + [c[0]]
  }

  /** Pushing entry `j` at the head of the reversed first `j` entries gives
      the reversed first `j + 1` entries. */
  lemma ReverseSnoc(c: Chain, j: nat)
    requires j < |c|
    ensures Reverse(c[..j + 1]) == [c[j]] + Reverse(c[..j])
  {
    var a, b := Reverse(c[..j + 1]), [c[j]] + Reverse(c[..j]);
    assert forall i :: 0 <= i < |a| ==> a[i] == b[i] by {
      forall i | 0 <= i < |a| ensures a[i] == b[i] {
        if i > 0 {
          assert b[i] == Reverse(c[..j])[i - 1];
        }
      }
    }
  }

  /** Two tables over the same first `n` chains list the same entries up to
      chain `n`. */
  lemma {:induction false} FlattenToSame(bs: seq<Chain>, bs': seq<Chain>, n: nat)
    requires n <= |bs| && n <= |bs'|
    requires forall i :: 0 <= i < n ==> bs[i] == bs'[i]
    ensures FlattenTo(bs, n) == FlattenTo(bs', n)
  {
    if n > 0 {
      FlattenToSame(bs, bs', n - 1);
    }
  }

  /** Two valid tables of `m` buckets under the same hash whose buckets hold
      the same entries, in whatever order, hold the same map. */
  lemma SameBucketsSameMap(bs: seq<Chain>, bs': seq<Chain>, hash: int -> nat, m: nat, cont: map<int, int>, cont': map<int, int>)
    requires ChainsValid(bs, hash, m, cont) && ChainsValid(bs', hash, m, cont')
    requires forall i, e :: 0 <= i < m && e in bs[i] ==> e in bs'[i]
    requires forall i, e :: 0 <= i < m && e in bs'[i] ==> e in bs[i]
    ensures cont == cont'
  {
    forall k | k in cont ensures k in cont' && cont'[k] == cont[k] {
      var b := Slot(hash, m, k);
      assert KeyIn(bs[b], k);
      var j :| 0 <= j < |bs[b]| && bs[b][j].0 == k;
      assert ChainOk(bs[b], hash, m, b, cont);
      assert bs[b][j] in bs'[b];
      var j' :| 0 <= j' < |bs'[b]| && bs'[b][j'] == bs[b][j];
      assert ChainOk(bs'[b], hash, m, b, cont');
    }
    forall k | k in cont' ensures k in cont {
      var b := Slot(hash, m, k);
      assert KeyIn(bs'[b], k);
      var j :| 0 <= j < |bs'[b]| && bs'[b][j].0 == k;
      assert bs'[b][j] in bs[b];
      var j' :| 0 <= j' < |bs[b]| && bs[b][j'] == bs'[b][j];
      assert ChainOk(bs[b], hash, m, b, cont);
    }
    MapExtensional(cont, cont');
  }

  /** Reversing a chain keeps its entries. */
  lemma ReverseMembers(c: Chain)
    ensures forall e :: e in Reverse(c) <==> e in c
  {
    var r := Reverse(c);
    forall e | e in c ensures e in r {
      var j :| 0 <= j < |c| && c[j] == e;
      assert r[|c| - 1 - j] == e;
    }
  }

  /** A valid table whose first `m + 1` buckets are those of another valid
      table of `m` buckets under the same hash, each kept or reversed, holds
      the same map. */
  /** A chain as a copy holds it: the same, or reversed. */
  function Copied(c: Chain, keepOrder: bool): (r: Chain)
    ensures keepOrder ==> r == c
    ensures !keepOrder ==> r == Reverse(c)
  {
    if keepOrder then c else Reverse(c)
  }

  /** A table of `n` buckets whose first `b` buckets are those of `src`
      copied, and whose other buckets are still empty. */
  function CopiedTable(src: seq<Chain>, b: nat, n: nat, keepOrder: bool): (r: seq<Chain>)
    requires b <= n <= |src|
    ensures |r| == n
    ensures forall i :: 0 <= i < b ==> r[i] == Copied(src[i], keepOrder)
    ensures forall i :: b <= i < n ==> r[i] == []
  {
    seq(n, i requires 0 <= i < n => if i < b then Copied(src[i], keepOrder) else [])
  }

  /** Copying bucket `b` extends the copied prefix by one. */
  lemma CopiedTableStep(src: seq<Chain>, b: nat, n: nat, keepOrder: bool)
    requires b < n <= |src|
    ensures CopiedTable(src, b, n, keepOrder)[b := Copied(src[b], keepOrder)] == CopiedTable(src, b + 1, n, keepOrder)
  {
  }

  lemma CopiedSameMap(src: seq<Chain>, bs: seq<Chain>, hash: int -> nat, m: nat, cont: map<int, int>, cont': map<int, int>, keepOrder: bool)
    requires ChainsValid(src, hash, m, cont) && ChainsValid(bs, hash, m, cont') && |bs| == m + 1 && m < |src|
    requires forall i :: 0 <= i < m ==> bs[i] == Copied(src[i], keepOrder)
    requires bs[m] == []
    ensures cont == cont'
    ensures forall i :: 0 <= i < |bs| ==> bs[i] == Copied(src[i], keepOrder)
  {
    assert src[m] == [];
    forall i | 0 <= i < m
      ensures forall e :: e in bs[i] <==> e in src[i]
    {
      ReverseMembers(src[i]);
    }
    SameBucketsSameMap(src, bs, hash, m, cont, cont');
  }

  /** A table whose buckets are the first buckets of another, all of whose
      further buckets are empty, iterates the same entries. */
  lemma SameLeadingBuckets(bs: seq<Chain>, src: seq<Chain>)
    requires |bs| <= |src| && forall i :: 0 <= i < |bs| ==> bs[i] == src[i]
    requires forall i :: |bs| <= i < |src| ==> src[i] == []
    ensures Flatten(bs) == Flatten(src)
  {
    FlattenToSame(bs, src, |bs|);
    FlattenEmptyTail(src, |bs|);
  }
}
