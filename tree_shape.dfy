/** The nodes of the binary search tree of `src/TreeMap.h` and the tree they
    describe. Nodes live in an arena, a sequence indexed by node number,
    whose links are indices with -1 for `nullptr`; the tree is a ghost value
    whose branches carry the node number, so a position in it can be tied to
    the arena. A position in a tree is written as a context: the path from a
    hole up to the root, innermost frame first. */
module TreeShape {

  /** The fields of `TreeMap::Node`: the stored pair and the three links. */
  datatype NodeRec = NodeRec(key: int, value: int, parent: int, llink: int, rlink: int)

  /** A tree whose every branch is arena node `id`. */
  datatype Tree = Nil | Br(left: Tree, id: nat, key: int, value: int, right: Tree)

  /** The surroundings of a hole: `L` when the hole is the left subtree of
      node `id`, `R` when it is the right subtree, `Top` at the root. */
  datatype Ctx =
    | Top
    | L(id: nat, key: int, value: int, right: Tree, up: Ctx)
    | R(left: Tree, id: nat, key: int, value: int, up: Ctx)

  /** The link that points at `t`: its root's number, or -1 for the empty tree. */
  function RootOf(t: Tree): int
  {
    if t.Nil? then -1 else t.id
  }

  /** The node whose child the hole is, or -1 at the root. */
  function Parent(ctx: Ctx): int
  {
    if ctx.Top? then -1 else ctx.id
  }

  /** The whole tree obtained by putting `s` in the hole of `ctx`. */
  function Plug(ctx: Ctx, s: Tree): Tree
  {
    match ctx
    case Top => s
    case L(id, k, v, r, up) => Plug(up, Br(s, id, k, v, r))
    case R(l, id, k, v, up) => Plug(up, Br(l, id, k, v, s))
  }

  /** The node numbers of a tree. */
  function Ids(t: Tree): set<nat>
  {
    match t
    case Nil => {}
    case Br(l, id, _, _, r) => Ids(l) + {id} + Ids(r)
  }

  /** The node numbers of a context, around the hole. */
  function CtxIds(ctx: Ctx): set<nat>
  {
    match ctx
    case Top => {}
    case L(id, _, _, r, up) => {id} + Ids(r) + CtxIds(up)
    case R(l, id, _, _, up) => Ids(l) + {id} + CtxIds(up)
  }

  /** The arena holds tree `t` hanging from node `p`: each branch's node
      stores the branch's pair, links back to its parent and links to the
      roots of its two subtrees. */
  ghost predicate Linked(t: Tree, ns: seq<NodeRec>, p: int)
  {
    match t
    case Nil => true
    case Br(l, id, k, v, r) =>
      && id < |ns| && ns[id] == NodeRec(k, v, p, RootOf(l), RootOf(r))
      && Linked(l, ns, id) && Linked(r, ns, id)
  }

  /** The child links alone, read from node `RootOf(t)` down, describe `t`:
      like `Linked`, but ignoring the parent links. */
  ghost predicate DownLinked(t: Tree, ns: seq<NodeRec>)
  {
    match t
    case Nil => true
    case Br(l, id, k, v, r) =>
      && id < |ns| && ns[id].key == k && ns[id].value == v
      && ns[id].llink == RootOf(l) && ns[id].rlink == RootOf(r)
      && DownLinked(l, ns) && DownLinked(r, ns)
  }

  /** The arena holds context `ctx` around a hole whose root is `h`. */
  ghost predicate LinkedCtx(ctx: Ctx, ns: seq<NodeRec>, h: int)
  {
    match ctx
    case Top => true
    case L(id, k, v, r, up) =>
      && id < |ns| && ns[id] == NodeRec(k, v, Parent(up), h, RootOf(r))
      && Linked(r, ns, id) && LinkedCtx(up, ns, id)
    case R(l, id, k, v, up) =>
      && id < |ns| && ns[id] == NodeRec(k, v, Parent(up), RootOf(l), h)
      && Linked(l, ns, id) && LinkedCtx(up, ns, id)
  }

  /** A whole tree is held by the arena exactly when the subtree in the hole
      is, hanging from the hole's parent, and so is the context around it. */
  lemma {:induction false} LinkedPlug(ctx: Ctx, s: Tree, ns: seq<NodeRec>)
    ensures Linked(Plug(ctx, s), ns, -1) <==> Linked(s, ns, Parent(ctx)) && LinkedCtx(ctx, ns, RootOf(s))
  {
    match ctx
    case Top =>
    case L(id, k, v, r, up) =>
      LinkedPlug(up, Br(s, id, k, v, r), ns);
    case R(l, id, k, v, up) =>
      LinkedPlug(up, Br(l, id, k, v, s), ns);
  }

  /** Arenas `ns` and `ns'` agree on the nodes `ids`. */
  ghost predicate SameOn(ns: seq<NodeRec>, ns': seq<NodeRec>, ids: set<nat>)
  {
    forall i :: i in ids ==> i < |ns| && i < |ns'| && ns'[i] == ns[i]
  }

  /** Writing node `j` leaves every other node in place. */
  lemma SameOnUpdate(ns: seq<NodeRec>, j: nat, x: NodeRec, ids: set<nat>)
    requires j < |ns| && j !in ids && forall i :: i in ids ==> i < |ns|
    ensures SameOn(ns, ns[j := x], ids)
  {
  }

  /** Appending a node leaves every existing node in place. */
  lemma SameOnAppend(ns: seq<NodeRec>, x: NodeRec, ids: set<nat>)
    requires forall i :: i in ids ==> i < |ns|
    ensures SameOn(ns, ns + [x], ids)
  {
  }

  /** Arenas that agree on some nodes agree on fewer. */
  lemma SameOnSub(ns: seq<NodeRec>, ns': seq<NodeRec>, ids: set<nat>, sub: set<nat>)
    requires SameOn(ns, ns', ids) && sub <= ids
    ensures SameOn(ns, ns', sub)
  {
  }

  /** Only the nodes of a tree matter to whether the arena holds it. */
  lemma {:induction false} LinkedFrame(t: Tree, ns: seq<NodeRec>, ns': seq<NodeRec>, p: int)
    requires Linked(t, ns, p) && SameOn(ns, ns', Ids(t))
    ensures Linked(t, ns', p)
  {
    if t.Br? {
      LinkedFrame(t.left, ns, ns', t.id);
      LinkedFrame(t.right, ns, ns', t.id);
    }
  }

  /** Only the nodes of a context matter to whether the arena holds it. */
  lemma {:induction false} LinkedCtxFrame(ctx: Ctx, ns: seq<NodeRec>, ns': seq<NodeRec>, h: int)
    requires LinkedCtx(ctx, ns, h) && SameOn(ns, ns', CtxIds(ctx))
    ensures LinkedCtx(ctx, ns', h)
  {
    match ctx
    case Top =>
    case L(id, k, v, r, up) =>
      LinkedFrame(r, ns, ns', id);
      LinkedCtxFrame(up, ns, ns', id);
    case R(l, id, k, v, up) =>
      LinkedFrame(l, ns, ns', id);
      LinkedCtxFrame(up, ns, ns', id);
  }

  /** Every node of a held tree is in the arena and stores a key of the tree. */
  lemma {:induction false} LinkedIds(t: Tree, ns: seq<NodeRec>, p: int)
    requires Linked(t, ns, p)
    ensures forall i :: i in Ids(t) ==> i < |ns| && ns[i].key in Keys(t)
  {
    if t.Br? {
      LinkedIds(t.left, ns, t.id);
      LinkedIds(t.right, ns, t.id);
    }
  }

  /** Every node of a held context is in the arena and stores a key of the context. */
  lemma {:induction false} LinkedCtxIds(ctx: Ctx, ns: seq<NodeRec>, h: int)
    requires LinkedCtx(ctx, ns, h)
    ensures forall i :: i in CtxIds(ctx) ==> i < |ns| && ns[i].key in CtxKeys(ctx)
  {
    match ctx
    case Top =>
    case L(id, k, v, r, up) =>
      LinkedIds(r, ns, id);
      LinkedCtxIds(up, ns, id);
    case R(l, id, k, v, up) =>
      LinkedIds(l, ns, id);
      LinkedCtxIds(up, ns, id);
  }

  /** The keys of a tree. */
  function Keys(t: Tree): set<int>
  {
    match t
    case Nil => {}
    case Br(l, _, k, _, r) => Keys(l) + {k} + Keys(r)
  }

  /** The keys of a context. */
  function CtxKeys(ctx: Ctx): set<int>
  {
    match ctx
    case Top => {}
    case L(_, k, _, r, up) => {k} + Keys(r) + CtxKeys(up)
    case R(l, _, k, _, up) => Keys(l) + {k} + CtxKeys(up)
  }

  /** The node numbers of a whole tree are those of the hole's subtree and
      those of the context. */
  lemma {:induction false} IdsPlug(ctx: Ctx, s: Tree)
    ensures Ids(Plug(ctx, s)) == Ids(s) + CtxIds(ctx)
  {
    match ctx
    case Top =>
    case L(id, k, v, r, up) =>
      IdsPlug(up, Br(s, id, k, v, r));
    case R(l, id, k, v, up) =>
      IdsPlug(up, Br(l, id, k, v, s));
  }

  /** The keys of a whole tree are those of the hole's subtree and those of
      the context. */
  lemma {:induction false} KeysPlug(ctx: Ctx, s: Tree)
    ensures Keys(Plug(ctx, s)) == Keys(s) + CtxKeys(ctx)
  {
    match ctx
    case Top =>
    case L(id, k, v, r, up) =>
      KeysPlug(up, Br(s, id, k, v, r));
    case R(l, id, k, v, up) =>
      KeysPlug(up, Br(l, id, k, v, s));
  }

  /** Below the root, what fills a hole does not change the root. */
  lemma {:induction false} RootPlug(ctx: Ctx, s: Tree, s': Tree)
    requires !ctx.Top?
    ensures RootOf(Plug(ctx, s)) == RootOf(Plug(ctx, s'))
  {
    match ctx
    case L(id, k, v, r, up) =>
      if !up.Top? {
        RootPlug(up, Br(s, id, k, v, r), Br(s', id, k, v, r));
      }
    case R(l, id, k, v, up) =>
      if !up.Top? {
        RootPlug(up, Br(l, id, k, v, s), Br(l, id, k, v, s'));
      }
  }

  /** The branch of `t` whose node is `id`, with its context inside `up`. */
  function Focus(t: Tree, id: nat, up: Ctx): (f: (Ctx, Tree))
    requires id in Ids(t)
    ensures Plug(f.0, f.1) == Plug(up, t) && f.1.Br? && f.1.id == id
  {
    if t.id == id then (up, t)
    else if id in Ids(t.left) then Focus(t.left, id, L(t.id, t.key, t.value, t.right, up))
    else Focus(t.right, id, R(t.left, t.id, t.key, t.value, up))
  }

  /** The arena edit that makes the node whose child a hole is point at `h'`
      instead of `h` keeps the context held, provided that node occurs only
      once in the context. */
  lemma LinkedCtxHole(ctx: Ctx, ns: seq<NodeRec>, ns': seq<NodeRec>, h: int, h': int)
    requires !ctx.Top? && LinkedCtx(ctx, ns, h)
    requires ctx.L? ==> ctx.id !in Ids(ctx.right) && ctx.id !in CtxIds(ctx.up)
    requires ctx.R? ==> ctx.id !in Ids(ctx.left) && ctx.id !in CtxIds(ctx.up)
    requires SameOn(ns, ns', CtxIds(ctx) - {ctx.id})
    requires ctx.id < |ns'|
    requires ctx.L? ==> ns'[ctx.id] == ns[ctx.id].(llink := h')
    requires ctx.R? ==> ns'[ctx.id] == ns[ctx.id].(rlink := h')
    ensures LinkedCtx(ctx, ns', h')
  {
    var others := CtxIds(ctx) - {ctx.id};
    if ctx.L? {
      SameOnSub(ns, ns', others, Ids(ctx.right));
      SameOnSub(ns, ns', others, CtxIds(ctx.up));
      LinkedFrame(ctx.right, ns, ns', ctx.id);
      LinkedCtxFrame(ctx.up, ns, ns', ctx.id);
    } else {
      SameOnSub(ns, ns', others, Ids(ctx.left));
      SameOnSub(ns, ns', others, CtxIds(ctx.up));
      LinkedFrame(ctx.left, ns, ns', ctx.id);
      LinkedCtxFrame(ctx.up, ns, ns', ctx.id);
    }
  }

  /** Changing only the parent link of a tree's root hangs it from the new
      parent, provided the root occurs once in the tree. */
  lemma LinkedReparent(t: Tree, ns: seq<NodeRec>, ns': seq<NodeRec>, p: int, p': int)
    requires t.Br? && Linked(t, ns, p) && t.id !in Ids(t.left) && t.id !in Ids(t.right)
    requires SameOn(ns, ns', Ids(t) - {t.id})
    requires t.id < |ns'| && ns'[t.id] == ns[t.id].(parent := p')
    ensures Linked(t, ns', p')
  {
    LinkedFrame(t.left, ns, ns', t.id);
    LinkedFrame(t.right, ns, ns', t.id);
  }
}
