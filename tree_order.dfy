/** The search-tree order of `src/TreeMap.h` and what a tree denotes: its
    keys, its map from keys to values and its in-order sequence of pairs,
    which is the iteration order. */
module TreeOrder {
  import opened MapCommon
  import opened TreeShape

  /** Binary search tree order: every key of a left subtree is smaller, and
      every key of a right subtree larger, than the key of its branch. */
  predicate Ordered(t: Tree)
  {
    match t
    case Nil => true
    case Br(l, _, k, _, r) =>
      && Ordered(l) && Ordered(r)
      && (forall x :: x in Keys(l) ==> x < k)
      && (forall x :: x in Keys(r) ==> k < x)
  }

  /** A search for `k` that leaves a branch by one side finds `k` in the
      tree exactly when it finds it in that side. */
  lemma DescendKeys(t: Tree, k: int)
    requires t.Br? && Ordered(t)
    ensures k < t.key ==> (k in Keys(t) <==> k in Keys(t.left))
    ensures t.key < k ==> (k in Keys(t) <==> k in Keys(t.right))
  {
  }

  /** Key `x` lies in the key interval that the hole of `ctx` covers. */
  predicate Fits(ctx: Ctx, x: int)
  {
    match ctx
    case Top => true
    case L(_, k, _, _, up) => x < k && Fits(up, x)
    case R(_, _, k, _, up) => k < x && Fits(up, x)
  }

  /** The context part of the search-tree order. */
  predicate OrderedCtx(ctx: Ctx)
  {
    match ctx
    case Top => true
    case L(_, k, _, r, up) =>
      && Ordered(r) && Fits(up, k) && OrderedCtx(up)
      && (forall x :: x in Keys(r) ==> k < x && Fits(up, x))
    case R(l, _, k, _, up) =>
      && Ordered(l) && Fits(up, k) && OrderedCtx(up)
      && (forall x :: x in Keys(l) ==> x < k && Fits(up, x))
  }

  /** A whole tree is ordered exactly when the subtree in the hole is, its
      keys fit the hole, and the context is ordered. */
  lemma {:induction false} OrderedPlug(ctx: Ctx, s: Tree)
    ensures Ordered(Plug(ctx, s)) ==> Ordered(s) && OrderedCtx(ctx) && forall x :: x in Keys(s) ==> Fits(ctx, x)
    ensures Ordered(s) && OrderedCtx(ctx) && (forall x :: x in Keys(s) ==> Fits(ctx, x)) ==> Ordered(Plug(ctx, s))
  {
    match ctx
    case Top =>
    case L(id, k, v, r, up) =>
      var t := Br(s, id, k, v, r);
      OrderedPlug(up, t);
      FitsKeys(up, t);
    case R(l, id, k, v, up) =>
      var t := Br(l, id, k, v, s);
      OrderedPlug(up, t);
      FitsKeys(up, t);
  }

  /** The keys of a branch fit a hole exactly when its key and the keys of
      both subtrees do. */
  lemma FitsKeys(ctx: Ctx, t: Tree)
    requires t.Br?
    ensures (forall x :: x in Keys(t) ==> Fits(ctx, x)) ==>
      && Fits(ctx, t.key)
      && (forall x :: x in Keys(t.left) ==> Fits(ctx, x))
      && (forall x :: x in Keys(t.right) ==> Fits(ctx, x))
    ensures
      && Fits(ctx, t.key)
      && (forall x :: x in Keys(t.left) ==> Fits(ctx, x))
      && (forall x :: x in Keys(t.right) ==> Fits(ctx, x))
      ==> forall x :: x in Keys(t) ==> Fits(ctx, x)
  {
  }

  /** A key that fits the hole is not a key of the context. */
  lemma {:induction false} FitsAvoid(ctx: Ctx, x: int)
    requires OrderedCtx(ctx) && Fits(ctx, x)
    ensures x !in CtxKeys(ctx)
  {
    if !ctx.Top? {
      FitsAvoid(ctx.up, x);
    }
  }

  /** In an ordered tree held by the arena, a branch's node is not a node of
      either subtree. */
  lemma BranchDistinct(t: Tree, ns: seq<NodeRec>, p: int)
    requires Linked(t, ns, p) && Ordered(t) && t.Br?
    ensures t.id !in Ids(t.left) && t.id !in Ids(t.right)
  {
    LinkedIds(t.left, ns, t.id);
    LinkedIds(t.right, ns, t.id);
  }

  /** In an ordered tree held by the arena, the nodes of the subtree in a
      hole are not nodes of the context. */
  lemma PlugDistinct(ctx: Ctx, s: Tree, ns: seq<NodeRec>)
    requires Linked(Plug(ctx, s), ns, -1) && Ordered(Plug(ctx, s))
    ensures Ids(s) !! CtxIds(ctx)
  {
    LinkedPlug(ctx, s, ns);
    OrderedPlug(ctx, s);
    assert OrderedCtx(ctx) && forall x :: x in Keys(s) ==> Fits(ctx, x);
    LinkedIds(s, ns, Parent(ctx));
    LinkedCtxIds(ctx, ns, RootOf(s));
    forall i | i in Ids(s)
      ensures i !in CtxIds(ctx)
    {
      FitsAvoid(ctx, ns[i].key);
    }
  }

  /** In an ordered tree held by the arena, the node whose child the hole
      is appears nowhere else in the context. */
  lemma ParentDistinct(ctx: Ctx, s: Tree, ns: seq<NodeRec>)
    requires Linked(Plug(ctx, s), ns, -1) && Ordered(Plug(ctx, s)) && !ctx.Top?
    ensures ctx.L? ==> ctx.id !in Ids(ctx.right) && ctx.id !in CtxIds(ctx.up)
    ensures ctx.R? ==> ctx.id !in Ids(ctx.left) && ctx.id !in CtxIds(ctx.up)
  {
    LinkedPlug(ctx, s, ns);
    OrderedPlug(ctx, s);
    assert OrderedCtx(ctx);
    FitsAvoid(ctx.up, ctx.key);
    LinkedCtxIds(ctx.up, ns, ctx.id);
    if ctx.L? {
      LinkedIds(ctx.right, ns, ctx.id);
    } else {
      LinkedIds(ctx.left, ns, ctx.id);
    }
  }

  /** The map a tree denotes. */
  function ToMap(t: Tree): (m: map<int, int>)
    ensures forall x :: x in m <==> x in Keys(t)
  {
    match t
    case Nil => map[]
    case Br(l, _, k, v, r) => (ToMap(l) + ToMap(r))[k := v]
  }

  /** How a context combines the map of the subtree in its hole into the
      map of the whole tree. */
  function Combine(ctx: Ctx, m: map<int, int>): map<int, int>
  {
    match ctx
    case Top => m
    case L(_, k, v, r, up) => Combine(up, (m + ToMap(r))[k := v])
    case R(l, _, k, v, up) => Combine(up, (ToMap(l) + m)[k := v])
  }

  /** The map of a whole tree depends on the subtree in a hole only
      through that subtree's map. */
  lemma {:induction false} ToMapPlug(ctx: Ctx, s: Tree)
    ensures ToMap(Plug(ctx, s)) == Combine(ctx, ToMap(s))
  {
    match ctx
    case Top =>
    case L(id, k, v, r, up) =>
      ToMapPlug(up, Br(s, id, k, v, r));
    case R(l, id, k, v, up) =>
      ToMapPlug(up, Br(l, id, k, v, s));
  }

  /** Updating a key outside the context commutes with combining. */
  lemma {:induction false} CombineUpdate(ctx: Ctx, m: map<int, int>, x: int, w: int)
    requires x !in CtxKeys(ctx)
    ensures Combine(ctx, m[x := w]) == Combine(ctx, m)[x := w]
  {
    match ctx
    case Top =>
    case L(_, k, v, r, up) =>
      UpdateUnionLeft(m, ToMap(r), k, v, x, w);
      CombineUpdate(up, (m + ToMap(r))[k := v], x, w);
    case R(l, _, k, v, up) =>
      UpdateUnionRight(ToMap(l), m, k, v, x, w);
      CombineUpdate(up, (ToMap(l) + m)[k := v], x, w);
  }

  /** Removing a key outside the context commutes with combining. */
  lemma {:induction false} CombineRemove(ctx: Ctx, m: map<int, int>, x: int)
    requires x !in CtxKeys(ctx)
    ensures Combine(ctx, m - {x}) == Combine(ctx, m) - {x}
  {
    match ctx
    case Top =>
    case L(_, k, v, r, up) =>
      RemoveUnionLeft(m, ToMap(r), k, v, x);
      CombineRemove(up, (m + ToMap(r))[k := v], x);
    case R(l, _, k, v, up) =>
      RemoveUnionRight(ToMap(l), m, k, v, x);
      CombineRemove(up, (ToMap(l) + m)[k := v], x);
  }

  lemma UpdateUnionLeft(m: map<int, int>, t: map<int, int>, k: int, v: int, x: int, w: int)
    requires x !in t && x != k
    ensures (m[x := w] + t)[k := v] == (m + t)[k := v][x := w]
  {
    MapExtensional((m[x := w] + t)[k := v], (m + t)[k := v][x := w]);
  }

  lemma UpdateUnionRight(t: map<int, int>, m: map<int, int>, k: int, v: int, x: int, w: int)
    requires x != k
    ensures (t + m[x := w])[k := v] == (t + m)[k := v][x := w]
  {
    MapExtensional((t + m[x := w])[k := v], (t + m)[k := v][x := w]);
  }

  lemma RemoveUnionLeft(m: map<int, int>, t: map<int, int>, k: int, v: int, x: int)
    requires x !in t && x != k
    ensures ((m - {x}) + t)[k := v] == (m + t)[k := v] - {x}
  {
    MapExtensional(((m - {x}) + t)[k := v], (m + t)[k := v] - {x});
  }

  lemma RemoveUnionRight(t: map<int, int>, m: map<int, int>, k: int, v: int, x: int)
    requires x !in t && x != k
    ensures (t + (m - {x}))[k := v] == (t + m)[k := v] - {x}
  {
    MapExtensional((t + (m - {x}))[k := v], (t + m)[k := v] - {x});
  }

  /** The pairs of a tree in order: left subtree, branch, right subtree. */
  function InOrder(t: Tree): seq<Entry>
  {
    match t
    case Nil => []
    case Br(l, _, k, v, r) => InOrder(l) + [(k, v)] + InOrder(r)
  }

  /** The pairs in order that come before the hole of a context. */
  function Before(ctx: Ctx): seq<Entry>
  {
    match ctx
    case Top => []
    case L(_, _, _, _, up) => Before(up)
    case R(l, _, k, v, up) => Before(up) + InOrder(l) + [(k, v)]
  }

  /** The pairs in order that come after the hole of a context. */
  function After(ctx: Ctx): seq<Entry>
  {
    match ctx
    case Top => []
    case L(_, k, v, r, up) => [(k, v)] + InOrder(r) + After(up)
    case R(_, _, _, _, up) => After(up)
  }

  /** The in-order sequence of a whole tree is the part before the hole, the
      subtree in the hole, and the part after it. */
  lemma {:induction false} InOrderPlug(ctx: Ctx, s: Tree)
    ensures InOrder(Plug(ctx, s)) == Before(ctx) + InOrder(s) + After(ctx)
  {
    match ctx
    case Top =>
    case L(id, k, v, r, up) =>
      var t := Br(s, id, k, v, r);
      calc {
        InOrder(Plug(ctx, s));
        InOrder(Plug(up, t));
        { InOrderPlug(up, t); }
        Before(up) + InOrder(t) + After(up);
        { assert InOrder(t) == InOrder(s) + ([(k, v)] + InOrder(r)); }
        Before(up) + (InOrder(s) + ([(k, v)] + InOrder(r))) + After(up);
        { Assoc4(Before(up), InOrder(s), [(k, v)] + InOrder(r), After(up)); }
        Before(up) + InOrder(s) + ([(k, v)] + InOrder(r) + After(up));
      }
    case R(l, id, k, v, up) =>
      var t := Br(l, id, k, v, s);
      calc {
        InOrder(Plug(ctx, s));
        InOrder(Plug(up, t));
        { InOrderPlug(up, t); }
        Before(up) + InOrder(t) + After(up);
        Before(up) + ((InOrder(l) + [(k, v)]) + InOrder(s)) + After(up);
        { Assoc4(Before(up), InOrder(l) + [(k, v)], InOrder(s), After(up)); }
        (Before(up) + InOrder(l) + [(k, v)]) + InOrder(s) + After(up);
      }
  }

  lemma Assoc4(a: seq<Entry>, b: seq<Entry>, c: seq<Entry>, d: seq<Entry>)
    ensures a + (b + c) + d == a + b + (c + d)
    ensures a + (b + c) + d == (a + b) + c + d
  {
  }

  /** Keys strictly increase along the sequence. */
  predicate Sorted(e: seq<Entry>)
  {
    forall i, j :: 0 <= i < j < |e| ==> e[i].0 < e[j].0
  }

  /** An ordered tree lists its pairs in strictly increasing key order. */
  lemma {:induction false} OrderedSorted(t: Tree)
    requires Ordered(t)
    ensures Sorted(InOrder(t))
  {
    if t.Br? {
      OrderedSorted(t.left);
      OrderedSorted(t.right);
      var a, b := InOrder(t.left), InOrder(t.right);
      var e := InOrder(t);
      assert e == a + [(t.key, t.value)] + b;
      forall i, j | 0 <= i < j < |e|
        ensures e[i].0 < e[j].0
      {
        if i < |a| {
          assert e[i] == a[i];
          InOrderIn(t.left, i);
        } else if i > |a| {
          assert e[i] == b[i - |a| - 1];
        }
        if j < |a| {
          assert e[j] == a[j];
        } else if j > |a| {
          assert e[j] == b[j - |a| - 1];
          InOrderIn(t.right, j - |a| - 1);
        }
      }
    }
  }

  /** The in-order sequence lists keys of the tree. */
  lemma {:induction false} InOrderIn(t: Tree, i: nat)
    requires i < |InOrder(t)|
    ensures InOrder(t)[i].0 in Keys(t)
  {
    var a, b := InOrder(t.left), InOrder(t.right);
    assert InOrder(t) == a + [(t.key, t.value)] + b;
    if i < |a| {
      assert InOrder(t)[i] == a[i];
      InOrderIn(t.left, i);
    } else if i > |a| {
      assert InOrder(t)[i] == b[i - |a| - 1];
      InOrderIn(t.right, i - |a| - 1);
    }
  }

  /** Every key of a tree occurs in its in-order sequence. */
  lemma {:induction false} InOrderKeys(t: Tree, x: int)
    requires x in Keys(t)
    ensures exists i :: 0 <= i < |InOrder(t)| && InOrder(t)[i].0 == x
  {
    var a, b := InOrder(t.left), InOrder(t.right);
    assert InOrder(t) == a + [(t.key, t.value)] + b;
    if x in Keys(t.left) {
      InOrderKeys(t.left, x);
      var i :| 0 <= i < |a| && a[i].0 == x;
      assert InOrder(t)[i] == a[i];
    } else if x == t.key {
      assert InOrder(t)[|a|].0 == x;
    } else {
      InOrderKeys(t.right, x);
      var i :| 0 <= i < |b| && b[i].0 == x;
      assert InOrder(t)[|a| + 1 + i] == b[i];
    }
  }

  /** In an ordered tree each listed pair is the one the map holds. */
  lemma {:induction false} InOrderAt(t: Tree, i: nat)
    requires Ordered(t) && i < |InOrder(t)|
    ensures InOrder(t)[i].0 in ToMap(t) && ToMap(t)[InOrder(t)[i].0] == InOrder(t)[i].1
  {
    var a, b := InOrder(t.left), InOrder(t.right);
    var e := InOrder(t);
    assert e == a + [(t.key, t.value)] + b;
    if i < |a| {
      assert e[i] == a[i];
      InOrderIn(t.left, i);
      InOrderAt(t.left, i);
      assert t.Br? && a[i].0 < t.key;
      assert a[i].0 !in Keys(t.right);
    } else if i > |a| {
      assert e[i] == b[i - |a| - 1];
      InOrderAt(t.right, i - |a| - 1);
    }
  }

  /** An ordered tree's in-order sequence denotes its map. */
  lemma InOrderDenotes(t: Tree)
    requires Ordered(t)
    ensures EntriesMap(InOrder(t)) == ToMap(t)
  {
    forall i | 0 <= i < |InOrder(t)|
      ensures InOrder(t)[i].0 in ToMap(t) && ToMap(t)[InOrder(t)[i].0] == InOrder(t)[i].1
    {
      InOrderAt(t, i);
    }
    forall x | x in ToMap(t)
      ensures exists i :: 0 <= i < |InOrder(t)| && InOrder(t)[i].0 == x
    {
      InOrderKeys(t, x);
    }
    EntriesMapExact(InOrder(t), ToMap(t));
  }

  /** The place of key `k` in a sequence of pairs that contains it. */
  ghost function KeyIndex(e: seq<Entry>, k: int): (i: nat)
    requires exists j :: 0 <= j < |e| && e[j].0 == k
    ensures i < |e| && e[i].0 == k
  {
    var j :| 0 <= j < |e| && e[j].0 == k; j
  }

  /** In a sorted sequence a key has one place. */
  lemma KeyIndexSorted(e: seq<Entry>, j: nat)
    requires Sorted(e) && j < |e|
    ensures KeyIndex(e, e[j].0) == j
  {
  }

  /** Node `i` of an ordered tree held by the arena stores a pair of the map. */
  lemma {:induction false} LinkedMap(t: Tree, ns: seq<NodeRec>, p: int)
    requires Linked(t, ns, p) && Ordered(t)
    ensures forall i :: i in Ids(t) ==> i < |ns| && ns[i].key in ToMap(t) && ToMap(t)[ns[i].key] == ns[i].value
  {
    if t.Br? {
      LinkedMap(t.left, ns, t.id);
      LinkedMap(t.right, ns, t.id);
      LinkedIds(t.left, ns, t.id);
      LinkedIds(t.right, ns, t.id);
    }
  }

  /** In an ordered tree held by the arena, no two nodes hold the same key. */
  lemma {:induction false} LinkedKeyUnique(t: Tree, ns: seq<NodeRec>, p: int, i: nat, j: nat)
    requires Linked(t, ns, p) && Ordered(t) && i in Ids(t) && j in Ids(t)
    requires i < |ns| && j < |ns| && ns[i].key == ns[j].key
    ensures i == j
  {
    LinkedIds(t.left, ns, t.id);
    LinkedIds(t.right, ns, t.id);
    if i in Ids(t.left) && j in Ids(t.left) {
      LinkedKeyUnique(t.left, ns, t.id, i, j);
    } else if i in Ids(t.right) && j in Ids(t.right) {
      LinkedKeyUnique(t.right, ns, t.id, i, j);
    }
  }

  /** The first pair of an ordered tree in order holds its least key. */
  lemma FirstLeast(t: Tree, x: int)
    requires Ordered(t) && x in Keys(t)
    ensures |InOrder(t)| > 0 && InOrder(t)[0].0 <= x
  {
    InOrderKeys(t, x);
    OrderedSorted(t);
  }

  /** The last pair of an ordered tree in order holds its greatest key. */
  lemma LastGreatest(t: Tree, x: int)
    requires Ordered(t) && x in Keys(t)
    ensures |InOrder(t)| > 0 && x <= InOrder(t)[|InOrder(t)| - 1].0
  {
    InOrderKeys(t, x);
    OrderedSorted(t);
  }

  /** The tree without its leftmost branch, whose right subtree takes its place. */
  function RemoveMin(t: Tree): Tree
    requires t.Br?
  {
    if t.left.Nil? then t.right else Br(RemoveMin(t.left), t.id, t.key, t.value, t.right)
  }

  /** Removing the leftmost branch drops the first pair in order. */
  lemma {:induction false} RemoveMinInOrder(t: Tree)
    requires t.Br?
    ensures |InOrder(t)| > 0 && InOrder(RemoveMin(t)) == InOrder(t)[1..]
  {
    if t.left.Br? {
      RemoveMinInOrder(t.left);
      var a := InOrder(t.left);
      assert InOrder(t) == a + ([(t.key, t.value)] + InOrder(t.right));
    }
  }

  /** Removing the leftmost branch removes the least key, which was held
      by the first pair, and keeps the tree ordered. */
  lemma {:induction false} RemoveMinKeys(t: Tree)
    requires t.Br? && Ordered(t)
    ensures |InOrder(t)| > 0 && Ordered(RemoveMin(t))
    ensures Keys(RemoveMin(t)) == Keys(t) - {InOrder(t)[0].0}
    ensures ToMap(RemoveMin(t)) == ToMap(t) - {InOrder(t)[0].0}
    ensures InOrder(t)[0].0 in ToMap(t) && ToMap(t)[InOrder(t)[0].0] == InOrder(t)[0].1
  {
    var k := t.key;
    if t.left.Nil? {
      assert InOrder(t)[0] == (k, t.value);
      assert k !in Keys(t.right);
      MapExtensional(ToMap(t.right), ToMap(t) - {k});
    } else {
      var a := InOrder(t.left);
      RemoveMinKeys(t.left);
      assert InOrder(t) == a + ([(k, t.value)] + InOrder(t.right));
      assert InOrder(t)[0] == a[0];
      var m := a[0].0;
      assert m in Keys(t.left) && m < k;
      assert m !in Keys(t.right);
      MapExtensional(ToMap(RemoveMin(t)), ToMap(t) - {m});
    }
  }

  /** Two trees with the same shape and the same pairs, whatever nodes hold them. */
  predicate SameShape(t: Tree, u: Tree)
  {
    match t
    case Nil => u.Nil?
    case Br(l, _, k, v, r) => u.Br? && u.key == k && u.value == v && SameShape(l, u.left) && SameShape(r, u.right)
  }

  /** Trees of the same shape have the same keys, map, order and pairs in order. */
  lemma {:induction false} SameShapeDenotes(t: Tree, u: Tree)
    requires SameShape(t, u)
    ensures Keys(t) == Keys(u) && ToMap(t) == ToMap(u) && InOrder(t) == InOrder(u)
    ensures Ordered(t) ==> Ordered(u)
  {
    if t.Br? {
      SameShapeDenotes(t.left, u.left);
      SameShapeDenotes(t.right, u.right);
    }
  }

  /** In a sorted sequence the last pair holds the greatest key of the map it
      denotes, and the rest denotes the map without that key. */
  lemma SortedLast(e: seq<Entry>)
    requires Sorted(e) && |e| > 0
    ensures forall k :: k in EntriesMap(e) ==> k <= e[|e| - 1].0
    ensures EntriesMap(e[..|e| - 1]) == EntriesMap(e) - {e[|e| - 1].0}
  {
    var n := |e|;
    var init := e[..n - 1];
    forall k | k in EntriesMap(e)
      ensures k <= e[n - 1].0
    {
      var i :| 0 <= i < n && e[i].0 == k;
    }
    MapExtensional(EntriesMap(init), EntriesMap(e) - {e[n - 1].0});
  }

  /** Nonempty sorted sequences that denote the same map end with the same
      pair, and the rest of them denote the same map. */
  lemma SortedSameLast(a: seq<Entry>, b: seq<Entry>)
    requires Sorted(a) && Sorted(b) && EntriesMap(a) == EntriesMap(b) && |a| > 0 && |b| > 0
    ensures a[|a| - 1] == b[|b| - 1]
    ensures EntriesMap(a[..|a| - 1]) == EntriesMap(b[..|b| - 1])
    ensures Sorted(a[..|a| - 1]) && Sorted(b[..|b| - 1])
  {
    var x, y := a[|a| - 1], b[|b| - 1];
    SortedLast(a);
    SortedLast(b);
    assert x.0 <= y.0 && y.0 <= x.0;
  }

  /** Sorted sequences that denote the same map are equal. */
  lemma {:induction false} SortedUnique(a: seq<Entry>, b: seq<Entry>)
    requires Sorted(a) && Sorted(b) && EntriesMap(a) == EntriesMap(b)
    ensures a == b
    decreases |a|
  {
    if a != [] && b != [] {
      SortedSameLast(a, b);
      SortedUnique(a[..|a| - 1], b[..|b| - 1]);
      SameInitLast(a, b);
    } else {
      SortedCard(a);
      SortedCard(b);
    }
  }

  /** Nonempty sequences with the same last element and the same rest are equal. */
  lemma SameInitLast(a: seq<Entry>, b: seq<Entry>)
    requires |a| > 0 && |b| > 0 && a[..|a| - 1] == b[..|b| - 1] && a[|a| - 1] == b[|b| - 1]
    ensures a == b
  {
    assert a == a[..|a| - 1] + [a[|a| - 1]];
    assert b == b[..|b| - 1] + [b[|b| - 1]];
  }

  /** A sorted sequence denotes a map with one key per pair. */
  lemma {:induction false} SortedCard(e: seq<Entry>)
    requires Sorted(e)
    ensures |EntriesMap(e)| == |e|
    decreases |e|
  {
    if e != [] {
      var n := |e|;
      SortedLast(e);
      SortedCard(e[..n - 1]);
      var m := EntriesMap(e);
      var m' := EntriesMap(e[..n - 1]);
      assert m'.Keys == m.Keys - {e[n - 1].0};
      assert m.Keys == m'.Keys + {e[n - 1].0};
    }
  }
}
