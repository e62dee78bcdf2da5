/** The pointer writes that `src/TreeMap.h` performs on its nodes, as edits
    of the arena, and what each edit does to the tree the arena holds:
    hanging a new leaf, overwriting a value, cutting out a node that has at
    most one child, and putting a node in the place of another. */
module TreeEdit {
  import opened MapCommon
  import opened TreeShape
  import opened TreeOrder

  /** Sets the left link of node `p` to `h` when `left`, else its right link. */
  function SetLink(ns: seq<NodeRec>, p: int, left: bool, h: int): (ns': seq<NodeRec>)
    ensures |ns'| == |ns|
  {
    if 0 <= p < |ns| then
      if left then ns[p := ns[p].(llink := h)] else ns[p := ns[p].(rlink := h)]
    else ns
  }

  /** Makes the link of node `p` that points at `o` point at `h`: the left
      link when it holds `o`, otherwise the right one. */
  function Relink(ns: seq<NodeRec>, p: int, o: int, h: int): (ns': seq<NodeRec>)
    ensures |ns'| == |ns|
  {
    SetLink(ns, p, 0 <= p < |ns| && ns[p].llink == o, h)
  }

  /** Sets the parent link of node `c` to `p`; nothing when `c` is -1. */
  function Reparent(ns: seq<NodeRec>, c: int, p: int): (ns': seq<NodeRec>)
    ensures |ns'| == |ns|
  {
    if 0 <= c < |ns| then ns[c := ns[c].(parent := p)] else ns
  }

  /** `ns'` is `ns` with the leaf `(k, v)` appended as node `|ns|` and hung
      from an existing node `p`: from its null left link when `k` is below
      the key of `p`, otherwise from its null right link. No other node
      changes. */
  ghost predicate HungLeaf(ns: seq<NodeRec>, ns': seq<NodeRec>, k: int, v: int)
  {
    && |ns'| == |ns| + 1
    && 0 <= ns'[|ns|].parent < |ns|
    && ns'[|ns|] == NodeRec(k, v, ns'[|ns|].parent, -1, -1)
    && (forall i :: 0 <= i < |ns| && i != ns'[|ns|].parent ==> ns'[i] == ns[i])
    && var p := ns'[|ns|].parent;
      if k < ns[p].key then ns[p].llink == -1 && ns'[p] == ns[p].(llink := |ns|)
      else ns[p].key < k && ns[p].rlink == -1 && ns'[p] == ns[p].(rlink := |ns|)
  }

  /** The write sequence of `find_place` at an empty hole hangs the new leaf
      from the hole's parent, on the side the key calls for. */
  lemma HangLeaf(ctx: Ctx, ns: seq<NodeRec>, k: int, v: int)
    requires !ctx.Top? && LinkedCtx(ctx, ns, -1) && Fits(ctx, k)
    ensures HungLeaf(ns, SetLink(ns + [NodeRec(k, v, Parent(ctx), -1, -1)], Parent(ctx), ctx.L?, |ns|), k, v)
  {
  }

  /** Hanging a new leaf at node number `|ns|` into an empty hole below the
      root, and linking it from the hole's parent, inserts its pair. */
  lemma AttachLeaf(ctx: Ctx, ns: seq<NodeRec>, k: int, v: int)
    requires !ctx.Top? && Linked(Plug(ctx, Nil), ns, -1) && Ordered(Plug(ctx, Nil)) && Fits(ctx, k)
    ensures var leaf := Br(Nil, |ns|, k, v, Nil);
      var ns' := SetLink(ns + [NodeRec(k, v, Parent(ctx), -1, -1)], Parent(ctx), ctx.L?, |ns|);
      && Linked(Plug(ctx, leaf), ns', -1)
      && Ordered(Plug(ctx, leaf))
      && ToMap(Plug(ctx, leaf)) == ToMap(Plug(ctx, Nil))[k := v]
      && RootOf(Plug(ctx, leaf)) == RootOf(Plug(ctx, Nil))
  {
    var n := |ns|;
    var p := Parent(ctx);
    var leaf := Br(Nil, n, k, v, Nil);
    var ns1 := ns + [NodeRec(k, v, p, -1, -1)];
    var ns' := SetLink(ns1, p, ctx.L?, n);
    LinkedPlug(ctx, Nil, ns);
    assert LinkedCtx(ctx, ns', n) by {
      ParentDistinct(ctx, Nil, ns);
      LinkedCtxIds(ctx, ns, -1);
      SameOnAppend(ns, NodeRec(k, v, p, -1, -1), CtxIds(ctx));
      LinkedCtxFrame(ctx, ns, ns1, -1);
      SameOnUpdate(ns1, p, ns'[p], CtxIds(ctx) - {p});
      LinkedCtxHole(ctx, ns1, ns', -1, n);
    }
    assert Linked(leaf, ns', p);
    LinkedPlug(ctx, leaf, ns');
    assert Ordered(Plug(ctx, leaf)) by {
      OrderedPlug(ctx, Nil);
      OrderedPlug(ctx, leaf);
    }
    assert ToMap(Plug(ctx, leaf)) == ToMap(Plug(ctx, Nil))[k := v] by {
      OrderedPlug(ctx, Nil);
      ToMapPlug(ctx, leaf);
      ToMapPlug(ctx, Nil);
      FitsAvoid(ctx, k);
      CombineUpdate(ctx, map[], k, v);
      MapUnionEmpty(map[]);
    }
    RootPlug(ctx, leaf, Nil);
  }

  /** Overwriting the value stored in the node of a branch updates the map
      at its key. */
  lemma OverwriteValue(ctx: Ctx, s: Tree, ns: seq<NodeRec>, v: int)
    requires s.Br? && s.id < |ns| && Linked(Plug(ctx, s), ns, -1) && Ordered(Plug(ctx, s))
    ensures var s' := Br(s.left, s.id, s.key, v, s.right);
      var ns' := ns[s.id := ns[s.id].(value := v)];
      && Linked(Plug(ctx, s'), ns', -1)
      && Ordered(Plug(ctx, s'))
      && ToMap(Plug(ctx, s')) == ToMap(Plug(ctx, s))[s.key := v]
      && RootOf(Plug(ctx, s')) == RootOf(Plug(ctx, s))
  {
    var s' := Br(s.left, s.id, s.key, v, s.right);
    var ns' := ns[s.id := ns[s.id].(value := v)];
    var p := Parent(ctx);
    LinkedPlug(ctx, s, ns);
    OrderedPlug(ctx, s);
    assert Linked(s', ns', p) by {
      BranchDistinct(s, ns, p);
      LinkedIds(s.left, ns, s.id);
      LinkedIds(s.right, ns, s.id);
      SameOnUpdate(ns, s.id, ns'[s.id], Ids(s.left));
      SameOnUpdate(ns, s.id, ns'[s.id], Ids(s.right));
      LinkedFrame(s.left, ns, ns', s.id);
      LinkedFrame(s.right, ns, ns', s.id);
    }
    assert LinkedCtx(ctx, ns', s.id) by {
      PlugDistinct(ctx, s, ns);
      LinkedCtxIds(ctx, ns, s.id);
      SameOnUpdate(ns, s.id, ns'[s.id], CtxIds(ctx));
      LinkedCtxFrame(ctx, ns, ns', s.id);
    }
    LinkedPlug(ctx, s', ns');
    assert Ordered(Plug(ctx, s')) by {
      OrderedPlug(ctx, s');
    }
    assert ToMap(Plug(ctx, s')) == ToMap(Plug(ctx, s))[s.key := v] by {
      ToMapPlug(ctx, s);
      ToMapPlug(ctx, s');
      FitsAvoid(ctx, s.key);
      CombineUpdate(ctx, ToMap(s), s.key, v);
      MapExtensional(ToMap(s'), ToMap(s)[s.key := v]);
    }
    if !ctx.Top? {
      RootPlug(ctx, s, s');
    }
  }

  /** The subtree that takes the place of a branch with at most one child. */
  function OnlyChild(s: Tree): Tree
    requires s.Br?
  {
    if s.left.Nil? then s.right else s.left
  }

  /** The arena after cutting out the node of branch `s`: the hole's parent
      links to the only child, and the child links back to that parent. */
  function SpliceArena(ctx: Ctx, s: Tree, ns: seq<NodeRec>): seq<NodeRec>
    requires s.Br?
  {
    var c := RootOf(OnlyChild(s));
    var ns1 := if ctx.Top? then ns else Relink(ns, Parent(ctx), s.id, c);
    Reparent(ns1, c, Parent(ctx))
  }

  /** Facts about a held, ordered tree split at a branch. */
  lemma SplitFacts(ctx: Ctx, s: Tree, ns: seq<NodeRec>)
    requires s.Br? && Linked(Plug(ctx, s), ns, -1) && Ordered(Plug(ctx, s))
    ensures Linked(s, ns, Parent(ctx)) && LinkedCtx(ctx, ns, s.id)
    ensures Ordered(s) && OrderedCtx(ctx) && forall x :: x in Keys(s) ==> Fits(ctx, x)
    ensures Ids(s) !! CtxIds(ctx) && s.id !in Ids(s.left) && s.id !in Ids(s.right)
    ensures forall i :: i in Ids(s) ==> i < |ns|
    ensures forall i :: i in CtxIds(ctx) ==> i < |ns|
  {
    LinkedPlug(ctx, s, ns);
    OrderedPlug(ctx, s);
    PlugDistinct(ctx, s, ns);
    BranchDistinct(s, ns, Parent(ctx));
    LinkedIds(s, ns, Parent(ctx));
    LinkedCtxIds(ctx, ns, s.id);
  }

  /** The hole's parent links to the hole by its left link exactly when the
      hole is a left subtree. */
  lemma HoleSide(ctx: Ctx, s: Tree, ns: seq<NodeRec>)
    requires s.Br? && !ctx.Top? && Linked(Plug(ctx, s), ns, -1) && Ordered(Plug(ctx, s))
    ensures ctx.id < |ns| && (ns[ctx.id].llink == s.id <==> ctx.L?)
    ensures ctx.id < |ns| && (ns[ctx.id].rlink == s.id <==> ctx.R?)
    ensures ctx.L? ==> ctx.id !in Ids(ctx.right) && ctx.id !in CtxIds(ctx.up)
    ensures ctx.R? ==> ctx.id !in Ids(ctx.left) && ctx.id !in CtxIds(ctx.up)
  {
    SplitFacts(ctx, s, ns);
    ParentDistinct(ctx, s, ns);
    if ctx.R? && ctx.left.Br? {
      assert ctx.left.id in CtxIds(ctx);
    }
    if ctx.L? && ctx.right.Br? {
      assert ctx.right.id in CtxIds(ctx);
    }
  }

  /** Cutting out a node with at most one child leaves its child's subtree
      held in its place. */
  lemma SpliceLinked(ctx: Ctx, s: Tree, ns: seq<NodeRec>)
    requires s.Br? && (s.left.Nil? || s.right.Nil?)
    requires Linked(Plug(ctx, s), ns, -1) && Ordered(Plug(ctx, s))
    ensures Linked(Plug(ctx, OnlyChild(s)), SpliceArena(ctx, s, ns), -1)
    ensures s.id !in Ids(Plug(ctx, OnlyChild(s)))
    ensures s.id < |ns| && SpliceArena(ctx, s, ns)[s.id] == ns[s.id]
  {
    var c := OnlyChild(s);
    var h := RootOf(c);
    var p := Parent(ctx);
    var z := s.id;
    SplitFacts(ctx, s, ns);
    assert Linked(c, ns, z) && Ordered(c);
    var ns1 := if ctx.Top? then ns else Relink(ns, p, z, h);
    assert LinkedCtx(ctx, ns1, h) && Linked(c, ns1, z) by {
      if !ctx.Top? {
        HoleSide(ctx, s, ns);
        SameOnUpdate(ns, p, ns1[p], CtxIds(ctx) - {p});
        LinkedCtxHole(ctx, ns, ns1, z, h);
        SameOnUpdate(ns, p, ns1[p], Ids(c));
        LinkedFrame(c, ns, ns1, z);
      }
    }
    var ns' := Reparent(ns1, h, p);
    assert LinkedCtx(ctx, ns', h) && Linked(c, ns', p) by {
      if c.Br? {
        SameOnUpdate(ns1, h, ns'[h], CtxIds(ctx));
        LinkedCtxFrame(ctx, ns1, ns', h);
        BranchDistinct(c, ns1, z);
        SameOnUpdate(ns1, h, ns'[h], Ids(c) - {h});
        LinkedReparent(c, ns1, ns', z, p);
      }
    }
    LinkedPlug(ctx, c, ns');
    IdsPlug(ctx, c);
  }

  /** Cutting out a node with at most one child removes its key and keeps
      the tree ordered; below the root the root stays. */
  lemma SpliceContents(ctx: Ctx, s: Tree)
    requires s.Br? && (s.left.Nil? || s.right.Nil?) && Ordered(Plug(ctx, s))
    ensures Ordered(Plug(ctx, OnlyChild(s)))
    ensures ToMap(Plug(ctx, OnlyChild(s))) == ToMap(Plug(ctx, s)) - {s.key}
    ensures !ctx.Top? ==> RootOf(Plug(ctx, OnlyChild(s))) == RootOf(Plug(ctx, s))
  {
    var c := OnlyChild(s);
    OrderedPlug(ctx, s);
    assert Ordered(Plug(ctx, c)) by {
      OrderedPlug(ctx, c);
    }
    assert ToMap(Plug(ctx, c)) == ToMap(Plug(ctx, s)) - {s.key} by {
      ToMapPlug(ctx, s);
      ToMapPlug(ctx, c);
      FitsAvoid(ctx, s.key);
      CombineRemove(ctx, ToMap(s), s.key);
      assert s.key !in Keys(c);
      MapExtensional(ToMap(c), ToMap(s) - {s.key});
    }
    if !ctx.Top? {
      RootPlug(ctx, s, c);
    }
  }

  /** The arena after node `m` takes the place of the node of branch `s`:
      `m` gets that node's parent and children, they link back to `m`, and
      the hole's parent links to `m`. */
  function TransplantArena(ctx: Ctx, s: Tree, ns: seq<NodeRec>, m: nat): seq<NodeRec>
    requires s.Br? && m < |ns|
  {
    var ns1 := ns[m := NodeRec(ns[m].key, ns[m].value, Parent(ctx), RootOf(s.left), RootOf(s.right))];
    var ns2 := Reparent(Reparent(ns1, RootOf(s.left), m), RootOf(s.right), m);
    if ctx.Top? then ns2 else Relink(ns2, Parent(ctx), s.id, m)
  }

  /** Writing a node that is not in a tree keeps the tree held. */
  lemma WriteOther(o: Tree, ns: seq<NodeRec>, q: int, j: nat, x: NodeRec)
    requires Linked(o, ns, q) && j < |ns| && j !in Ids(o)
    ensures Linked(o, ns[j := x], q)
  {
    LinkedIds(o, ns, q);
    SameOnUpdate(ns, j, x, Ids(o));
    LinkedFrame(o, ns, ns[j := x], q);
  }

  /** Re-parenting a node that is not in a tree keeps the tree held. */
  lemma ReparentOther(o: Tree, ns: seq<NodeRec>, q: int, c: int, m: int)
    requires Linked(o, ns, q) && (c < 0 || c !in Ids(o))
    ensures Linked(o, Reparent(ns, c, m), q)
  {
    if 0 <= c < |ns| {
      WriteOther(o, ns, q, c, ns[c].(parent := m));
    }
  }

  /** Re-parenting the root of an ordered tree hangs the tree from the new parent. */
  lemma ReparentRoot(t: Tree, ns: seq<NodeRec>, q: int, m: int)
    requires Linked(t, ns, q) && Ordered(t)
    ensures Linked(t, Reparent(ns, RootOf(t), m), m)
  {
    if t.Br? {
      var ns' := Reparent(ns, t.id, m);
      BranchDistinct(t, ns, q);
      LinkedIds(t, ns, q);
      SameOnUpdate(ns, t.id, ns'[t.id], Ids(t) - {t.id});
      LinkedReparent(t, ns, ns', q, m);
    }
  }

  /** The children of a branch hang from node `m` once `m` is written and
      their parent links are set to it. */
  lemma ReparentChildren(s: Tree, ns: seq<NodeRec>, m: nat, x: NodeRec)
    requires s.Br? && Linked(s.left, ns, s.id) && Linked(s.right, ns, s.id) && Ordered(s)
    requires Ids(s.left) !! Ids(s.right) && m < |ns| && m !in Ids(s)
    ensures var ns' := Reparent(Reparent(ns[m := x], RootOf(s.left), m), RootOf(s.right), m);
      Linked(s.left, ns', m) && Linked(s.right, ns', m)
  {
    var l, r := s.left, s.right;
    var ns1 := ns[m := x];
    WriteOther(l, ns, s.id, m, x);
    WriteOther(r, ns, s.id, m, x);
    var ns2 := Reparent(ns1, RootOf(l), m);
    ReparentRoot(l, ns1, s.id, m);
    ReparentOther(r, ns1, s.id, RootOf(l), m);
    ReparentRoot(r, ns2, s.id, m);
    ReparentOther(l, ns2, m, RootOf(r), m);
  }

  /** Putting a node that is not in the tree in the place of a branch's node
      leaves the arena holding the same tree with that node's pair there. */
  lemma TransplantLinked(ctx: Ctx, s: Tree, ns: seq<NodeRec>, m: nat)
    requires s.Br? && m < |ns| && m !in Ids(Plug(ctx, s))
    requires Linked(Plug(ctx, s), ns, -1) && Ordered(Plug(ctx, s))
    ensures var s' := Br(s.left, m, ns[m].key, ns[m].value, s.right);
      && Linked(Plug(ctx, s'), TransplantArena(ctx, s, ns, m), -1)
      && RootOf(Plug(ctx, s')) == (if ctx.Top? then m else RootOf(Plug(ctx, s)))
  {
    var s' := Br(s.left, m, ns[m].key, ns[m].value, s.right);
    var p := Parent(ctx);
    SplitFacts(ctx, s, ns);
    IdsPlug(ctx, s);
    assert Ids(s.left) !! Ids(s.right) by {
      OrderedIdsDisjoint(s, ns, p);
    }
    var x := NodeRec(ns[m].key, ns[m].value, p, RootOf(s.left), RootOf(s.right));
    var ns3 := Reparent(Reparent(ns[m := x], RootOf(s.left), m), RootOf(s.right), m);
    ReparentChildren(s, ns, m, x);
    assert ns3[m] == x;
    assert LinkedCtx(ctx, ns3, s.id) by {
      SameOnUpdate(ns, m, x, CtxIds(ctx));
      var ns1 := ns[m := x];
      LinkedCtxFrame(ctx, ns, ns1, s.id);
      var ns2 := Reparent(ns1, RootOf(s.left), m);
      if s.left.Br? {
        SameOnUpdate(ns1, s.left.id, ns2[s.left.id], CtxIds(ctx));
      }
      LinkedCtxFrame(ctx, ns1, ns2, s.id);
      if s.right.Br? {
        SameOnUpdate(ns2, s.right.id, ns3[s.right.id], CtxIds(ctx));
      }
      LinkedCtxFrame(ctx, ns2, ns3, s.id);
    }
    var ns' := TransplantArena(ctx, s, ns, m);
    assert Linked(s', ns', p) && LinkedCtx(ctx, ns', m) by {
      if ctx.Top? {
        assert ns' == ns3;
      } else {
        HoleSide(ctx, s, ns);
        assert ns3[p] == ns[p];
        SameOnUpdate(ns3, p, ns'[p], CtxIds(ctx) - {p});
        LinkedCtxHole(ctx, ns3, ns', s.id, m);
        SameOnUpdate(ns3, p, ns'[p], Ids(s.left));
        SameOnUpdate(ns3, p, ns'[p], Ids(s.right));
        LinkedFrame(s.left, ns3, ns', m);
        LinkedFrame(s.right, ns3, ns', m);
      }
    }
    LinkedPlug(ctx, s', ns');
    if !ctx.Top? {
      RootPlug(ctx, s, s');
    }
  }

  /** The subtrees of a held, ordered branch share no node. */
  lemma OrderedIdsDisjoint(s: Tree, ns: seq<NodeRec>, p: int)
    requires s.Br? && Linked(s, ns, p) && Ordered(s)
    ensures Ids(s.left) !! Ids(s.right)
  {
    LinkedIds(s.left, ns, s.id);
    LinkedIds(s.right, ns, s.id);
  }

  /** The map identity behind replacing a key by its successor. */
  lemma SuccessorMap(l: map<int, int>, r: map<int, int>, k: int, v: int, mk: int, mv: int)
    requires k !in l && k !in r && mk in r && r[mk] == mv && mk !in l
    ensures (l + (r - {mk}))[mk := mv] == (l + r)[k := v] - {k}
  {
    MapExtensional((l + (r - {mk}))[mk := mv], (l + r)[k := v] - {k});
  }

  /** The keys left after removing the leftmost branch exceed its key. */
  lemma RemoveMinAbove(r: Tree)
    requires r.Br? && Ordered(r)
    ensures |InOrder(r)| > 0 && forall x :: x in Keys(RemoveMin(r)) ==> InOrder(r)[0].0 < x
  {
    RemoveMinKeys(r);
    forall x | x in Keys(RemoveMin(r))
      ensures InOrder(r)[0].0 < x
    {
      FirstLeast(r, x);
    }
  }

  /** The branch whose pair is replaced by the first pair of its right
      subtree, which loses that pair, is ordered. */
  lemma SuccessorBranch(s: Tree, m: nat)
    requires s.Br? && s.right.Br? && Ordered(s)
    ensures |InOrder(s.right)| > 0
    ensures var (mk, mv) := InOrder(s.right)[0];
      Ordered(Br(s.left, m, mk, mv, RemoveMin(s.right)))
  {
    var r := s.right;
    RemoveMinKeys(r);
    RemoveMinAbove(r);
    var (mk, mv) := InOrder(r)[0];
    assert mk in Keys(r) && s.key < mk;
  }

  /** That branch holds the keys of the old one but its key. */
  lemma SuccessorKeys(s: Tree, m: nat)
    requires s.Br? && s.right.Br? && Ordered(s)
    ensures |InOrder(s.right)| > 0
    ensures var (mk, mv) := InOrder(s.right)[0];
      Keys(Br(s.left, m, mk, mv, RemoveMin(s.right))) == Keys(s) - {s.key}
  {
    var r := s.right;
    RemoveMinKeys(r);
    var (mk, mv) := InOrder(r)[0];
    assert mk in Keys(r) && s.key < mk;
    assert s.key !in Keys(s.left) && s.key !in Keys(r);
  }

  /** Putting the first pair of a branch's right subtree in the place of the
      branch's own pair, and removing that first pair from the right
      subtree, keeps the tree ordered. */
  lemma SuccessorOrdered(ctx: Ctx, s: Tree, m: nat)
    requires s.Br? && s.right.Br? && Ordered(Plug(ctx, s))
    ensures |InOrder(s.right)| > 0
    ensures var (mk, mv) := InOrder(s.right)[0];
      Ordered(Plug(ctx, Br(s.left, m, mk, mv, RemoveMin(s.right))))
  {
    OrderedPlug(ctx, s);
    SuccessorBranch(s, m);
    SuccessorKeys(s, m);
    var (mk, mv) := InOrder(s.right)[0];
    OrderedPlug(ctx, Br(s.left, m, mk, mv, RemoveMin(s.right)));
  }

  /** The same replacement removes the branch's key from the map. */
  lemma SuccessorContents(ctx: Ctx, s: Tree, m: nat)
    requires s.Br? && s.right.Br? && Ordered(Plug(ctx, s))
    ensures |InOrder(s.right)| > 0
    ensures var (mk, mv) := InOrder(s.right)[0];
      ToMap(Plug(ctx, Br(s.left, m, mk, mv, RemoveMin(s.right)))) == ToMap(Plug(ctx, s)) - {s.key}
  {
    var r := s.right;
    OrderedPlug(ctx, s);
    assert Ordered(s);
    RemoveMinKeys(r);
    var (mk, mv) := InOrder(r)[0];
    var s' := Br(s.left, m, mk, mv, RemoveMin(r));
    assert mk in Keys(r) && s.key < mk;
    assert s.key !in Keys(s.left) && s.key !in Keys(r) && mk !in Keys(s.left);
    SuccessorMap(ToMap(s.left), ToMap(r), s.key, s.value, mk, mv);
    ToMapPlug(ctx, s);
    ToMapPlug(ctx, s');
    FitsAvoid(ctx, s.key);
    CombineRemove(ctx, ToMap(s), s.key);
  }
}
