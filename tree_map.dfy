/** `TreeMap` of `src/TreeMap.h`: an unbalanced binary search tree whose
    nodes carry parent links, with an iterator that holds a node and walks
    the keys in increasing order. The nodes are an arena (see `TreeShape`);
    node number -1 plays `nullptr`, and an iterator is a node number with -1
    for `end()`. */
module TreeMaps {
  import opened MapCommon
  import opened TreeShape
  import opened TreeOrder
  import opened TreeEdit

  class TreeMap {
    /** Every node allocated so far, by number; a removed node stays behind
        unreachable, as if freed. */
    var nodes: seq<NodeRec>
    /** `root`: the root node, or -1 for an empty map. */
    var root: int
    /** The tree the nodes reachable from `root` form. */
    ghost var tree: Tree

    /** The links of the reachable nodes form `tree`, hanging from no
        parent, and `tree` is a search tree. */
    ghost predicate Valid()
      reads this
    {
      root == RootOf(tree) && Linked(tree, nodes, -1) && Ordered(tree)
    }

    /** The mapping the map stores. */
    ghost function Contents(): map<int, int>
      reads this
    {
      ToMap(tree)
    }

    /** The pairs in the order an iterator visits them. */
    ghost function Entries(): seq<Entry>
      reads this
    {
      InOrder(tree)
    }

    /** An iterator position: a reachable node, or -1 for `end()`. */
    ghost predicate ValidCursor(c: int)
      reads this
    {
      c == -1 || c in Ids(tree)
    }

    /** How many pairs an iterator visits before reaching node `c`. */
    ghost function Position(c: int): (p: nat)
      reads this
      requires Valid() && ValidCursor(c)
      ensures p <= |Entries()|
      ensures c != -1 ==> p < |Entries()| && c < |nodes| && Entries()[p] == (nodes[c].key, nodes[c].value)
    {
      if c == -1 then |Entries()|
      else
        LinkedMap(tree, nodes, -1);
        InOrderKeys(tree, nodes[c].key);
        var p := KeyIndex(Entries(), nodes[c].key);
        InOrderAt(tree, p);
        p
    }

    /** The subtree whose root is node `x`. */
    ghost function Sub(x: int): Tree
      reads this
      requires x in Ids(tree)
    {
      Focus(tree, x, Top).1
    }

    /** A node whose key is that of entry `j` sits at place `j`. */
    lemma PositionOf(c: int, j: nat)
      requires Valid() && c in Ids(tree) && c < |nodes| && j < |Entries()| && Entries()[j].0 == nodes[c].key
      ensures Position(c) == j
    {
      OrderedSorted(tree);
    }

    /** Distinct iterator positions are distinct places. */
    lemma PositionInjective(a: int, b: int)
      requires Valid() && ValidCursor(a) && ValidCursor(b)
      ensures Position(a) == Position(b) ==> a == b
    {
      if a != -1 && b != -1 && Position(a) == Position(b) {
        LinkedKeyUnique(tree, nodes, -1, a, b);
      }
    }

    /** How the arena links a branch of the tree and the node above it. */
    lemma HoleFacts(ctx: Ctx, s: Tree)
      requires Valid() && Plug(ctx, s) == tree && s.Br?
      ensures s.id in Ids(tree) && s.id < |nodes|
      ensures nodes[s.id] == NodeRec(s.key, s.value, Parent(ctx), RootOf(s.left), RootOf(s.right))
      ensures Linked(s, nodes, Parent(ctx)) && Ordered(s)
      ensures !ctx.Top? ==> ctx.id in Ids(tree) && ctx.id < |nodes| && (nodes[ctx.id].llink == s.id <==> ctx.L?)
      ensures !ctx.Top? ==> (nodes[ctx.id].rlink == s.id <==> ctx.R?)
    {
      LinkedPlug(ctx, s, nodes);
      OrderedPlug(ctx, s);
      IdsPlug(ctx, s);
      if !ctx.Top? {
        HoleSide(ctx, s, nodes);
      }
    }

    /** The node of a branch comes after everything before the branch and
        after its left subtree. */
    lemma PositionFocus(ctx: Ctx, s: Tree)
      requires Valid() && Plug(ctx, s) == tree && s.Br?
      ensures s.id in Ids(tree) && Position(s.id) == |Before(ctx)| + |InOrder(s.left)|
    {
      HoleFacts(ctx, s);
      InOrderPlug(ctx, s);
      var j := |Before(ctx)| + |InOrder(s.left)|;
      assert Entries()[j] == (s.key, s.value);
      PositionOf(s.id, j);
    }

    /** The subtree of the root is the whole tree. */
    lemma SubRoot()
      requires Valid() && root != -1
      ensures root in Ids(tree) && Sub(root) == tree
    {
    }

    /** A node whose key is below no key of the map is the first one. */
    lemma LeastFirst(c: int)
      requires Valid() && c in Ids(tree) && c < |nodes| && forall k :: k in Keys(tree) ==> nodes[c].key <= k
      ensures Position(c) == 0
    {
      OrderedSorted(tree);
      InOrderIn(tree, 0);
    }

    /** A node whose key is above no key of the map is the last one. */
    lemma GreatestLast(c: int)
      requires Valid() && c in Ids(tree) && c < |nodes| && forall k :: k in Keys(tree) ==> k <= nodes[c].key
      ensures Position(c) == |Entries()| - 1
    {
      OrderedSorted(tree);
      InOrderIn(tree, |Entries()| - 1);
    }

    /** The node holding the first pair of a branch's right subtree comes
        right after the branch's node. */
    lemma SuccessorBelow(ctx: Ctx, s: Tree, m: int)
      requires Valid() && Plug(ctx, s) == tree && s.Br? && m in Ids(s.right) && m < |nodes|
      requires |InOrder(s.right)| > 0 && InOrder(s.right)[0] == (nodes[m].key, nodes[m].value)
      ensures s.id in Ids(tree) && m in Ids(tree) && Position(m) == Position(s.id) + 1
    {
      PositionFocus(ctx, s);
      var up := R(s.left, s.id, s.key, s.value, ctx);
      InOrderPlug(up, s.right);
      IdsPlug(up, s.right);
      PositionOf(m, |Before(ctx)| + |InOrder(s.left)| + 1);
    }

    /** The node holding the last pair of a branch's left subtree comes
        right before the branch's node. */
    lemma PredecessorBelow(ctx: Ctx, s: Tree, m: int)
      requires Valid() && Plug(ctx, s) == tree && s.Br? && m in Ids(s.left) && m < |nodes|
      requires |InOrder(s.left)| > 0 && InOrder(s.left)[|InOrder(s.left)| - 1] == (nodes[m].key, nodes[m].value)
      ensures s.id in Ids(tree) && m in Ids(tree) && Position(m) + 1 == Position(s.id)
    {
      PositionFocus(ctx, s);
      var up := L(s.id, s.key, s.value, s.right, ctx);
      InOrderPlug(up, s.left);
      IdsPlug(up, s.left);
      PositionOf(m, |Before(ctx)| + |InOrder(s.left)| - 1);
    }

    /** The loop of `min_node`: from node `x`, the root of branch `s`,
        follow left links to the node holding the first pair of `s`; cutting
        that node out of its place leaves `s` without its first pair. */
    method Leftmost(x: int, ghost ctx: Ctx, ghost s: Tree) returns (r: int, ghost ctx': Ctx, ghost s': Tree)
      requires Valid() && Plug(ctx, s) == tree && s.Br? && s.id == x
      ensures Plug(ctx', s') == tree && s'.Br? && s'.id == r && s'.left.Nil? && r in Ids(s)
      ensures r < |nodes| && |InOrder(s)| > 0 && InOrder(s)[0] == (nodes[r].key, nodes[r].value)
      ensures Plug(ctx', s'.right) == Plug(ctx, RemoveMin(s))
    {
      r, ctx', s' := x, ctx, s;
      HoleFacts(ctx, s);
      while nodes[r].llink != -1
        invariant Plug(ctx', s') == tree && s'.Br? && s'.id == r && Ids(s') <= Ids(s)
        invariant r < |nodes| && nodes[r].llink == RootOf(s'.left)
        invariant Linked(s', nodes, Parent(ctx'))
        invariant |InOrder(s')| > 0 && |InOrder(s)| > 0 && InOrder(s)[0] == InOrder(s')[0]
        invariant Plug(ctx', RemoveMin(s')) == Plug(ctx, RemoveMin(s))
        decreases s'
      {
        ctx' := L(r, s'.key, s'.value, s'.right, ctx');
        s' := s'.left;
        r := nodes[r].llink;
      }
    }

    /** The loop of `max_node`: from node `x`, the root of branch `s`,
        follow right links to the node holding the last pair of `s`. */
    method Rightmost(x: int, ghost ctx: Ctx, ghost s: Tree) returns (r: int, ghost ctx': Ctx, ghost s': Tree)
      requires Valid() && Plug(ctx, s) == tree && s.Br? && s.id == x
      ensures Plug(ctx', s') == tree && s'.Br? && s'.id == r && s'.right.Nil? && r in Ids(s)
      ensures r < |nodes| && |InOrder(s)| > 0 && InOrder(s)[|InOrder(s)| - 1] == (nodes[r].key, nodes[r].value)
    {
      r, ctx', s' := x, ctx, s;
      HoleFacts(ctx, s);
      while nodes[r].rlink != -1
        invariant Plug(ctx', s') == tree && s'.Br? && s'.id == r && Ids(s') <= Ids(s)
        invariant r < |nodes| && nodes[r].rlink == RootOf(s'.right)
        invariant Linked(s', nodes, Parent(ctx'))
        invariant |InOrder(s')| > 0 && |InOrder(s)| > 0
        invariant InOrder(s)[|InOrder(s)| - 1] == InOrder(s')[|InOrder(s')| - 1]
        decreases s'
      {
        ctx' := R(s'.left, r, s'.key, s'.value, ctx');
        s' := s'.right;
        r := nodes[r].rlink;
      }
    }

    /** `min_node`: -1 for an empty map, else the node of the least key in
        the subtree of node `x`. */
    method MinNode(x: int) returns (r: int)
      requires Valid() && (root == -1 || x in Ids(tree))
      ensures root == -1 ==> r == -1
      ensures root != -1 ==> r in Ids(Sub(x)) && r < |nodes| && forall k :: k in Keys(Sub(x)) ==> nodes[r].key <= k
    {
      if root == -1 {
        return -1;
      }
      ghost var f := Focus(tree, x, Top);
      ghost var ctx', s';
      r, ctx', s' := Leftmost(x, f.0, f.1);
      OrderedPlug(f.0, f.1);
      forall k | k in Keys(f.1)
        ensures nodes[r].key <= k
      {
        FirstLeast(f.1, k);
      }
    }

    /** `max_node`: -1 for an empty map, else the node of the greatest key
        in the subtree of node `x`. */
    method MaxNode(x: int) returns (r: int)
      requires Valid() && (root == -1 || x in Ids(tree))
      ensures root == -1 ==> r == -1
      ensures root != -1 ==> r in Ids(Sub(x)) && r < |nodes| && forall k :: k in Keys(Sub(x)) ==> k <= nodes[r].key
    {
      if root == -1 {
        return -1;
      }
      ghost var f := Focus(tree, x, Top);
      ghost var ctx', s';
      r, ctx', s' := Rightmost(x, f.0, f.1);
      OrderedPlug(f.0, f.1);
      forall k | k in Keys(f.1)
        ensures k <= nodes[r].key
      {
        LastGreatest(f.1, k);
      }
    }

    /** `find_just_the_place`: descend by key comparisons to the node of
        key `k`, or -1 when no node holds it. */
    method FindJustThePlace(k: int) returns (r: int)
      requires Valid()
      ensures r == -1 <==> k !in Contents()
      ensures r != -1 ==> r in Ids(tree) && r < |nodes| && nodes[r].key == k && nodes[r].value == Contents()[k]
    {
      var temp := root;
      ghost var s, p := tree, -1;
      while temp != -1
        invariant Linked(s, nodes, p) && Ordered(s) && RootOf(s) == temp && Ids(s) <= Ids(tree)
        invariant k in Keys(tree) <==> k in Keys(s)
        decreases s
      {
        if nodes[temp].key == k {
          LinkedMap(tree, nodes, -1);
          return temp;
        }
        p := temp;
        if nodes[temp].key > k {
          temp, s := nodes[temp].llink, s.left;
        } else {
          temp, s := nodes[temp].rlink, s.right;
        }
      }
      return temp;
    }

    /** `find_place`: descend from node `x`, the root of the subtree `s` in
        the hole of `ctx`, and either overwrite the value of the node of key
        `k` or hang a new leaf where the descent leaves the tree. `side`
        tells which link of `parnt` leads to `x`; `x` and `parnt` are not
        both -1, as `add` starts at a non-empty root. */
    method FindPlace(k: int, v: int, x: int, parnt: int, side: bool, ghost ctx: Ctx, ghost s: Tree)
      requires Valid() && Plug(ctx, s) == tree && RootOf(s) == x && Parent(ctx) == parnt
      requires (side <==> ctx.L?) && Fits(ctx, k) && (x != -1 || parnt != -1)
      modifies this
      ensures Valid() && Contents() == old(Contents())[k := v] && root == old(root)
      ensures k in Keys(s) ==> exists x :: x in Ids(s) && x < |old(nodes)| && nodes == old(nodes)[x := old(nodes)[x].(value := v)]
      ensures k !in Keys(s) ==> |old(nodes)| in Ids(tree) && HungLeaf(old(nodes), nodes, k, v)
      decreases s
    {
      LinkedPlug(ctx, s, nodes);
      if x == -1 {
        AttachLeaf(ctx, nodes, k, v);
        HangLeaf(ctx, nodes, k, v);
        var n := |nodes|;
        nodes := nodes + [NodeRec(k, v, parnt, -1, -1)];
        nodes := SetLink(nodes, parnt, side, n);
        tree := Plug(ctx, Br(Nil, n, k, v, Nil));
        IdsPlug(ctx, Br(Nil, n, k, v, Nil));
      } else if k == nodes[x].key {
        OverwriteValue(ctx, s, nodes, v);
        nodes := nodes[x := nodes[x].(value := v)];
        tree := Plug(ctx, Br(s.left, x, s.key, v, s.right));
      } else if k > nodes[x].key {
        OrderedPlug(ctx, s);
        DescendKeys(s, k);
        FindPlace(k, v, nodes[x].rlink, x, false, R(s.left, x, s.key, s.value, ctx), s.right);
      } else {
        // The source tests `k < key` here, which always holds.
        OrderedPlug(ctx, s);
        DescendKeys(s, k);
        FindPlace(k, v, nodes[x].llink, x, true, L(x, s.key, s.value, s.right, ctx), s.left);
      }
    }

    /** `add`: a new root in an empty map, otherwise `find_place` from the
        root; an existing key gets the new value. */
    method Add(k: int, v: int)
      requires Valid()
      modifies this
      ensures Valid() && Contents() == old(Contents())[k := v]
      ensures k in old(Contents()) ==> exists x :: x in Ids(old(tree)) && x < |old(nodes)| && nodes == old(nodes)[x := old(nodes)[x].(value := v)]
      ensures k !in old(Contents()) ==> |old(nodes)| in Ids(tree)
      ensures k !in old(Contents()) && old(root) == -1 ==> root == |old(nodes)| && nodes == old(nodes) + [NodeRec(k, v, -1, -1, -1)]
      ensures k !in old(Contents()) && old(root) != -1 ==> root == old(root) && HungLeaf(old(nodes), nodes, k, v)
    {
      if root == -1 {
        var n := |nodes|;
        nodes := nodes + [NodeRec(k, v, -1, -1, -1)];
        root := n;
        tree := Br(Nil, n, k, v, Nil);
        MapUnionEmpty(map[]);
      } else {
        FindPlace(k, v, root, -1, false, Top, tree);
      }
    }

    /** `operator[]` as intended: the value of `k`, first inserting `k` with
        value 0 when it is absent. */
    method Subscript(k: int) returns (v: int)
      requires Valid()
      modifies this
      ensures Valid()
      ensures k in old(Contents()) ==> Contents() == old(Contents())
      ensures k !in old(Contents()) ==> Contents() == old(Contents())[k := 0]
      ensures k in Contents() && v == Contents()[k]
    {
      var x := FindJustThePlace(k);
      if x != -1 {
        return nodes[x].value;
      }
      Add(k, 0);
      v := 0;
    }

    /** `operator[]` as written at `src/TreeMap.h:172-184`: `find_place`
        with value 0 overwrites the value of a present key, so the result is
        always 0. */
    method SubscriptAsWritten(k: int) returns (v: int)
      requires Valid()
      modifies this
      ensures Valid() && Contents() == old(Contents())[k := 0] && v == 0
    {
      if root == -1 {
        var n := |nodes|;
        nodes := nodes + [NodeRec(k, 0, -1, -1, -1)];
        root := n;
        tree := Br(Nil, n, k, 0, Nil);
        MapUnionEmpty(map[]);
        v := nodes[root].value;
      } else {
        FindPlace(k, 0, root, -1, false, Top, tree);
        var x := FindJustThePlace(k);
        v := nodes[x].value;
      }
    }

    /** `find`: an iterator at the pair of key `k`, or `end()`. */
    method Find(k: int) returns (c: int)
      requires Valid()
      ensures ValidCursor(c)
      ensures c == -1 <==> k !in Contents()
      ensures c != -1 ==> Entries()[Position(c)] == (k, Contents()[k])
    {
      c := FindJustThePlace(k);
    }

    /** `operator*` of the iterator: the pair at `c`; `end()` is out of range. */
    method Deref(c: int) returns (r: Result<Entry>)
      requires Valid() && ValidCursor(c)
      ensures c == -1 ==> r == Err(OutOfRange)
      ensures c != -1 ==> r.Ok? && Position(c) < |Entries()| && r.value == Entries()[Position(c)]
    {
      if c == -1 {
        return Err(OutOfRange);
      }
      assert Position(c) < |Entries()|;
      r := Ok((nodes[c].key, nodes[c].value));
    }

    /** `valueOf`: the value of `k`, dereferencing `find(k)`, which is out of
        range when `k` is absent. */
    method ValueOf(k: int) returns (r: Result<int>)
      requires Valid()
      ensures k in Contents() ==> r == Ok(Contents()[k])
      ensures k !in Contents() ==> r == Err(OutOfRange)
    {
      var it := Find(k);
      var d := Deref(it);
      if d.Err? {
        return Err(d.error);
      }
      r := Ok(d.value.1);
    }

    /** `isEmpty`: no root. */
    function IsEmpty(): (r: bool)
      reads this
      requires Valid()
      ensures r <==> Contents() == map[]
    {
      assert tree.Br? ==> tree.key in Keys(tree);
      root == -1
    }

    /** `begin()`: the node of the least key; `end()` for an empty map. */
    method Begin() returns (c: int)
      requires Valid()
      ensures ValidCursor(c) && Position(c) == 0
    {
      c := MinNode(root);
      if c != -1 {
        LeastFirst(c);
      }
    }

    /** `end()`: past the last pair. */
    function End(): (c: int)
      reads this
      requires Valid()
      ensures ValidCursor(c) && Position(c) == |Entries()|
    {
      -1
    }

    /** `GiveMin` of the iterator: the node of the least key; out of range
        for an empty map. */
    method GiveMin() returns (r: Result<int>)
      requires Valid()
      ensures root == -1 ==> r == Err(OutOfRange)
      ensures root != -1 ==> r.Ok? && r.value in Ids(tree) && Position(r.value) == 0
    {
      if root == -1 {
        return Err(OutOfRange);
      }
      var m, ctx', s' := Leftmost(root, Top, tree);
      PositionOf(m, 0);
      r := Ok(m);
    }

    /** `GiveMax` of the iterator: the node of the greatest key; out of
        range for an empty map. */
    method GiveMax() returns (r: Result<int>)
      requires Valid()
      ensures root == -1 ==> r == Err(OutOfRange)
      ensures root != -1 ==> r.Ok? && r.value in Ids(tree) && Position(r.value) == |Entries()| - 1
    {
      if root == -1 {
        return Err(OutOfRange);
      }
      var m, ctx', s' := Rightmost(root, Top, tree);
      PositionOf(m, |Entries()| - 1);
      r := Ok(m);
    }

    /** `operator++` of the iterator: the node of the next key; from `end()`
        it is out of range. Past the last pair it reaches `end()`. */
    method Next(c: int) returns (r: Result<int>)
      requires Valid() && ValidCursor(c)
      ensures c == -1 ==> r == Err(OutOfRange)
      ensures c != -1 ==> r.Ok? && ValidCursor(r.value) && Position(r.value) == Position(c) + 1
    {
      if c == -1 {
        return Err(OutOfRange);
      }
      ghost var f := Focus(tree, c, Top);
      ghost var ctx, s := f.0, f.1;
      ghost var pc := Position(c);
      PositionFocus(ctx, s);
      HoleFacts(ctx, s);
      if nodes[c].rlink != -1 {
        var m, ctx', s' := Leftmost(nodes[c].rlink, R(s.left, c, s.key, s.value, ctx), s.right);
        SuccessorBelow(ctx, s, m);
        return Ok(m);
      }
      var cur := c;
      while nodes[cur].parent != -1
        invariant Plug(ctx, s) == tree && s.Br? && s.id == cur && cur < |nodes|
        invariant nodes[cur].parent == Parent(ctx)
        invariant pc + 1 == |Before(ctx)| + |InOrder(s)|
        decreases ctx
      {
        HoleFacts(ctx, s);
        var temp := cur;
        cur := nodes[cur].parent;
        if nodes[cur].llink == temp {
          PositionFocus(ctx.up, Br(s, ctx.id, ctx.key, ctx.value, ctx.right));
          return Ok(cur);
        }
        s := Br(ctx.left, ctx.id, ctx.key, ctx.value, s);
        ctx := ctx.up;
        HoleFacts(ctx, s);
      }
      return Ok(-1);
    }

    /** `operator--` of the iterator: from `end()` the node of the greatest
        key (out of range when the map is empty); from the least key it is
        out of range; otherwise the node of the previous key. */
    method Prev(c: int) returns (r: Result<int>)
      requires Valid() && ValidCursor(c)
      ensures Position(c) == 0 ==> r == Err(OutOfRange)
      ensures Position(c) > 0 ==> r.Ok? && r.value != -1 && ValidCursor(r.value) && Position(r.value) == Position(c) - 1
    {
      if c == -1 {
        r := GiveMax();
        return;
      }
      var mn := GiveMin();
      PositionInjective(c, mn.value);
      if c == mn.value {
        return Err(OutOfRange);
      }
      ghost var f := Focus(tree, c, Top);
      ghost var ctx, s := f.0, f.1;
      ghost var pc := Position(c);
      PositionFocus(ctx, s);
      HoleFacts(ctx, s);
      if nodes[c].llink != -1 {
        var m, ctx', s' := Rightmost(nodes[c].llink, L(c, s.key, s.value, s.right, ctx), s.left);
        PredecessorBelow(ctx, s, m);
        return Ok(m);
      }
      var cur := c;
      while nodes[cur].parent != -1
        invariant Plug(ctx, s) == tree && s.Br? && s.id == cur && cur < |nodes|
        invariant nodes[cur].parent == Parent(ctx)
        invariant pc == |Before(ctx)|
        decreases ctx
      {
        HoleFacts(ctx, s);
        var temp := cur;
        cur := nodes[cur].parent;
        if nodes[cur].rlink == temp {
          PositionFocus(ctx.up, Br(ctx.left, ctx.id, ctx.key, ctx.value, s));
          return Ok(cur);
        }
        s := Br(s, ctx.id, ctx.key, ctx.value, ctx.right);
        ctx := ctx.up;
        HoleFacts(ctx, s);
      }
      // Not reached: a node other than the least one lies in the right
      // subtree of some node above it.
      return Ok(-1);
    }

    /** The number of pairs is the number of keys. */
    lemma EntriesCount()
      requires Valid()
      ensures |Entries()| == |Contents()|
    {
      InOrderDenotes(tree);
      OrderedSorted(tree);
      SortedCard(InOrder(tree));
    }

    /** Iteration visits strictly ascending keys, and its pairs are the
        mapping the map stores. */
    lemma EntriesAscending()
      requires Valid()
      ensures Sorted(Entries()) && EntriesMap(Entries()) == Contents()
    {
      OrderedSorted(tree);
      InOrderDenotes(tree);
    }

    /** Two maps iterate the same pairs exactly when they store the same
        mapping. */
    lemma SameEntries(other: TreeMap)
      requires Valid() && other.Valid()
      ensures Entries() == other.Entries() <==> Contents() == other.Contents()
    {
      InOrderDenotes(tree);
      InOrderDenotes(other.tree);
      if Contents() == other.Contents() {
        OrderedSorted(tree);
        OrderedSorted(other.tree);
        SortedUnique(Entries(), other.Entries());
      }
    }

    /** The loop of `getSize`: count the steps of the iterator from node
        `it` to node `it2`, which comes no earlier. */
    method CountSteps(it: int, it2: int) returns (n: nat)
      requires Valid() && it in Ids(tree) && it2 in Ids(tree) && Position(it) <= Position(it2)
      ensures n == Position(it2) - Position(it)
    {
      var cur := it;
      n := 0;
      while cur != it2
        invariant ValidCursor(cur) && cur != -1 && Position(cur) == Position(it) + n <= Position(it2)
        decreases Position(it2) - Position(cur)
      {
        PositionInjective(cur, it2);
        var x := Next(cur);
        cur := x.value;
        n := n + 1;
      }
      PositionInjective(cur, it2);
    }

    /** `getSize`: 0 for an empty map, otherwise one more than the steps
        from the node of the least key to that of the greatest. */
    method GetSize() returns (n: nat)
      requires Valid()
      ensures n == |Contents()| && n == |Entries()|
    {
      if root == -1 {
        assert Entries() == [] && Contents() == map[];
        return 0;
      }
      SubRoot();
      var it2 := MaxNode(root);
      var it := MinNode(root);
      GreatestLast(it2);
      LeastFirst(it);
      n := CountSteps(it, it2);
      n := n + 1;
      EntriesCount();
    }

    /** Sequences of one length agreeing up to that length are equal. */
    static lemma AgreeAll(a: seq<Entry>, b: seq<Entry>)
      requires |a| == |b| && AgreeUpTo(a, b, |a|)
      ensures a == b
    {
      AgreeUpToEqual(a, b, |a|);
      assert a == a[..|a|] && b == b[..|b|];
    }

    /** One round of the loop of `operator==`: compare the pairs at `it1`
        and `it2`, which stand at the same place, then step both. */
    method EqualStep(other: TreeMap, it1: int, it2: int) returns (same: bool, n1: int, n2: int)
      requires Valid() && other.Valid() && ValidCursor(it1) && other.ValidCursor(it2)
      requires it1 != -1 && Position(it1) == other.Position(it2) && |Entries()| == |other.Entries()|
      ensures same <==> Entries()[Position(it1)] == other.Entries()[Position(it1)]
      ensures same ==> ValidCursor(n1) && other.ValidCursor(n2)
      ensures same ==> Position(n1) == Position(it1) + 1 && other.Position(n2) == Position(n1)
    {
      var e1 := Deref(it1);
      var e2 := other.Deref(it2);
      if e1.value.0 != e2.value.0 || e1.value.1 != e2.value.1 {
        return false, it1, it2;
      }
      var x1 := Next(it1);
      var x2 := other.Next(it2);
      same, n1, n2 := true, x1.value, x2.value;
    }

    /** The loop of `operator==`: walk both maps from `begin()`, comparing
        pairs, until the first reaches `end()`. */
    method EqualPairs(other: TreeMap) returns (r: bool)
      requires Valid() && other.Valid() && |Entries()| == |other.Entries()|
      ensures r <==> Entries() == other.Entries()
    {
      var it1 := Begin();
      var it2 := other.Begin();
      while it1 != -1
        invariant ValidCursor(it1) && other.ValidCursor(it2) && Position(it1) == other.Position(it2)
        invariant AgreeUpTo(Entries(), other.Entries(), Position(it1))
        decreases |Entries()| - Position(it1)
      {
        var same, x1, x2 := EqualStep(other, it1, it2);
        if !same {
          return false;
        }
        it1, it2 := x1, x2;
      }
      AgreeAll(Entries(), other.Entries());
      r := true;
    }

    /** `operator==`: equal sizes, then the same pairs in iteration order;
        so exactly when the two maps store the same mapping. */
    method Equal(other: TreeMap) returns (r: bool)
      requires Valid() && other.Valid()
      ensures r <==> Entries() == other.Entries()
      ensures r <==> Contents() == other.Contents()
    {
      SameEntries(other);
      var n1 := GetSize();
      var n2 := other.GetSize();
      if n1 != n2 {
        return false;
      }
      r := EqualPairs(other);
    }

    /** The branches of `remove(iterator)` for a node with at most one
        child: the parent's link that pointed at node `z` (or `root` when
        `z` is the root) takes the child `ch`, and the child's parent link
        takes `z`'s parent. */
    method Unlink(z: int, ch: int, ghost ctx: Ctx, ghost s: Tree)
      requires Valid() && Plug(ctx, s) == tree && s.Br? && s.id == z
      requires (s.left.Nil? || s.right.Nil?) && ch == RootOf(OnlyChild(s))
      modifies this
      ensures Valid() && tree == Plug(ctx, OnlyChild(s)) && Contents() == old(Contents()) - {s.key}
      ensures z !in Ids(tree) && |nodes| == |old(nodes)| && z < |nodes| && nodes[z] == old(nodes[z])
    {
      HoleFacts(ctx, s);
      SpliceLinked(ctx, s, nodes);
      SpliceContents(ctx, s);
      var p := nodes[z].parent;
      if p == -1 {
        root := ch;
      } else {
        nodes := Relink(nodes, p, z, ch);
      }
      nodes := Reparent(nodes, ch, p);
      tree := Plug(ctx, OnlyChild(s));
    }

    /** Node `t`, which is not in the tree, takes the place of node `z`:
        it gets `z`'s parent and children, they link back to it, and the
        parent's link (or `root`) points at it. */
    method Transplant(z: int, t: int, ghost ctx: Ctx, ghost s: Tree)
      requires Valid() && Plug(ctx, s) == tree && s.Br? && s.id == z
      requires 0 <= t < |nodes| && t !in Ids(tree)
      requires Ordered(Plug(ctx, Br(s.left, t, nodes[t].key, nodes[t].value, s.right)))
      modifies this
      ensures Valid() && tree == Plug(ctx, Br(s.left, t, old(nodes[t].key), old(nodes[t].value), s.right))
    {
      HoleFacts(ctx, s);
      TransplantLinked(ctx, s, nodes, t);
      var zl, zr, zp := nodes[z].llink, nodes[z].rlink, nodes[z].parent;
      nodes := nodes[t := NodeRec(nodes[t].key, nodes[t].value, zp, zl, zr)];
      nodes := Reparent(nodes, zl, t);
      nodes := Reparent(nodes, zr, t);
      if zp == -1 {
        root := t;
      } else {
        nodes := Relink(nodes, zp, z, t);
      }
      tree := Plug(ctx, Br(s.left, t, old(nodes[t].key), old(nodes[t].value), s.right));
    }

    /** The branch of `remove(iterator)` for a node `z` with two children,
        as intended: the node of the least key of the right subtree is cut
        out of its place and takes the place of `z`. */
    method RemoveTwoChildren(z: int, ghost ctx: Ctx, ghost s: Tree) returns (t: int)
      requires Valid() && Plug(ctx, s) == tree && s.Br? && s.id == z && s.left.Br? && s.right.Br?
      modifies this
      ensures Valid() && Contents() == old(Contents()) - {s.key}
      ensures t in Ids(s.right) && |InOrder(s.right)| > 0
      ensures tree == Plug(ctx, Br(s.left, t, InOrder(s.right)[0].0, InOrder(s.right)[0].1, RemoveMin(s.right)))
    {
      HoleFacts(ctx, s);
      ghost var ctxT, sT;
      t, ctxT, sT := Leftmost(nodes[z].rlink, R(s.left, z, s.key, s.value, ctx), s.right);
      SuccessorOrdered(ctx, s, t);
      SuccessorContents(ctx, s, t);
      HoleFacts(ctxT, sT);
      Unlink(t, nodes[t].rlink, ctxT, sT);
      Transplant(z, t, ctx, Br(s.left, z, s.key, s.value, RemoveMin(s.right)));
    }

    /** The branch of `remove(iterator)` for a node `z` with two children
        as written at `src/TreeMap.h:260-275`: the node `temp` of the least
        key of the right subtree takes `z`'s left child and parent, and
        becomes the root when `z` was the root. Nothing cuts `temp` out of
        its old place or gives it `z`'s right subtree, `z`'s parent keeps
        linking to `z`, and `z`'s children keep `z` as their parent. */
    method RemoveTwoChildrenAsWritten(z: int, ghost ctx: Ctx, ghost s: Tree) returns (temp: int)
      requires Valid() && Plug(ctx, s) == tree && s.Br? && s.id == z && s.left.Br? && s.right.Br?
      modifies this
      ensures temp in Ids(s.right) && temp < |old(nodes)| && z < |old(nodes)|
      ensures |InOrder(s.right)| > 0 && InOrder(s.right)[0] == (old(nodes[temp].key), old(nodes[temp].value))
      ensures nodes == old(nodes)[temp := old(nodes[temp]).(llink := old(nodes[z].llink), parent := old(nodes[z].parent))]
      ensures root == if old(nodes[z].parent) == -1 then temp else old(root)
    {
      HoleFacts(ctx, s);
      ghost var ctxT, sT;
      temp, ctxT, sT := Leftmost(nodes[z].rlink, R(s.left, z, s.key, s.value, ctx), s.right);
      if nodes[z].parent == -1 {
        root := temp;
        nodes := nodes[root := nodes[root].(llink := nodes[z].llink)];
        nodes := nodes[root := nodes[root].(parent := -1)];
      } else {
        nodes := nodes[temp := nodes[temp].(llink := nodes[z].llink)];
        nodes := nodes[temp := nodes[temp].(parent := nodes[z].parent)];
      }
    }

    /** `remove(iterator)`: `end()` is an invalid argument; otherwise the
        pair at the iterator leaves the map. */
    method RemoveAt(c: int) returns (r: Outcome)
      requires Valid() && ValidCursor(c)
      modifies this
      ensures Valid()
      ensures c == -1 ==> r == Fail(InvalidIterator) && nodes == old(nodes) && root == old(root) && tree == old(tree)
      ensures c != -1 ==> r == Pass && Contents() == old(Contents()) - {old(Entries()[Position(c)].0)}
    {
      if c == -1 {
        return Fail(InvalidIterator);
      }
      ghost var f := Focus(tree, c, Top);
      HoleFacts(f.0, f.1);
      assert Entries()[Position(c)].0 == f.1.key;
      var l, rl := nodes[c].llink, nodes[c].rlink;
      if l == -1 && rl == -1 {
        Unlink(c, -1, f.0, f.1);
      } else if l != -1 && rl == -1 {
        Unlink(c, l, f.0, f.1);
      } else if l == -1 && rl != -1 {
        Unlink(c, rl, f.0, f.1);
      } else {
        var t := RemoveTwoChildren(c, f.0, f.1);
      }
      r := Pass;
    }

    /** `remove(key)`: remove at `find(key)`, which is `end()` for an absent
        key. */
    method Remove(k: int) returns (r: Outcome)
      requires Valid()
      modifies this
      ensures Valid()
      ensures k !in old(Contents()) ==> r == Fail(InvalidIterator) && nodes == old(nodes) && root == old(root) && tree == old(tree)
      ensures k in old(Contents()) ==> r == Pass && Contents() == old(Contents()) - {k}
    {
      var c := Find(k);
      r := RemoveAt(c);
    }

    /** `CopyTree`: append copies of the nodes of the subtree `t` of
        `other`, rooted at node `from`, hanging the copy from node `parnt`;
        the result is the copy's root. Each new node first takes the links
        of its original, which the copies of its subtrees then replace. */
    method CopyTree(other: TreeMap, from: int, parnt: int, ghost t: Tree, ghost op: int) returns (nn: int, ghost ft: Tree)
      requires other != this && Linked(t, other.nodes, op) && RootOf(t) == from
      modifies this`nodes
      ensures |old(nodes)| <= |nodes| && forall i :: 0 <= i < |old(nodes)| ==> nodes[i] == old(nodes)[i]
      ensures Linked(ft, nodes, parnt) && SameShape(t, ft) && nn == RootOf(ft)
      ensures forall i :: i in Ids(ft) ==> |old(nodes)| <= i < |nodes|
      decreases t
    {
      if from == -1 {
        return -1, Nil;
      }
      var fr := other.nodes[from];
      var n := |nodes|;
      nodes := nodes + [NodeRec(fr.key, fr.value, parnt, fr.llink, fr.rlink)];
      ghost var ns0 := nodes;
      var l, fl := CopyTree(other, fr.llink, n, t.left, from);
      ghost var ns1 := nodes;
      nodes := nodes[n := nodes[n].(llink := l)];
      assert Linked(fl, nodes, n) by {
        WriteOther(fl, ns1, n, n, nodes[n]);
      }
      ghost var ns2 := nodes;
      var r, fr2 := CopyTree(other, fr.rlink, n, t.right, from);
      ghost var ns3 := nodes;
      assert Linked(fl, ns3, n) by {
        assert SameOn(ns2, ns3, Ids(fl));
        LinkedFrame(fl, ns2, ns3, n);
      }
      nodes := nodes[n := nodes[n].(rlink := r)];
      assert Linked(fl, nodes, n) && Linked(fr2, nodes, n) by {
        WriteOther(fl, ns3, n, n, nodes[n]);
        WriteOther(fr2, ns3, n, n, nodes[n]);
      }
      nn, ft := n, Br(fl, n, fr.key, fr.value, fr2);
    }

    /** The default constructor: an empty map. */
    constructor ()
      ensures Valid() && Contents() == map[] && Entries() == []
    {
      nodes := [];
      root := -1;
      tree := Nil;
    }

    /** The initializer-list constructor: `add` each pair in turn, so a
        later pair overwrites an earlier one with the same key. */
    constructor FromList(list: seq<Entry>)
      ensures Valid() && Contents() == EntriesMap(list)
    {
      nodes := [];
      root := -1;
      tree := Nil;
      new;
      var i := 0;
      while i < |list|
        invariant 0 <= i <= |list|
        invariant Valid() && Contents() == EntriesMap(list[..i])
      {
        Add(list[i].0, list[i].1);
        EntriesMapSnoc(list, i);
        i := i + 1;
      }
      assert list[..|list|] == list;
    }

    /** The copy constructor: a copy of the nodes of `other`, with the same
        pairs in the same shape. */
    constructor Copy(other: TreeMap)
      requires other.Valid()
      ensures Valid() && Entries() == other.Entries() && Contents() == other.Contents()
      ensures SameShape(other.tree, tree)
    {
      nodes := [];
      root := -1;
      tree := Nil;
      new;
      ghost var ft;
      root, ft := CopyTree(other, other.root, -1, other.tree, -1);
      tree := ft;
      SameShapeDenotes(other.tree, ft);
    }

    /** Copy assignment: nothing on self-assignment; otherwise the nodes
        are freed and replaced by a copy of those of `other`. */
    method Assign(other: TreeMap)
      requires Valid() && other.Valid()
      modifies this
      ensures Valid() && Entries() == old(other.Entries()) && Contents() == old(other.Contents())
      ensures other != this ==> SameShape(old(other.tree), tree)
      ensures other == this ==> nodes == old(nodes) && root == old(root) && tree == old(tree)
    {
      if this == other {
        return;
      }
      nodes, root, tree := [], -1, Nil;
      ghost var ft;
      root, ft := CopyTree(other, other.root, -1, other.tree, -1);
      tree := ft;
      SameShapeDenotes(other.tree, ft);
    }
  }

  /** `operator[]` on a present key: the intended version returns the
      stored value, the version as written overwrites it with 0. */
  method SubscriptCounterexample() returns (fixed: int, asWritten: int)
    ensures fixed == 7 && asWritten == 0
  {
    var m := new TreeMap();
    m.Add(1, 7);
    fixed := m.Subscript(1);
    asWritten := m.SubscriptAsWritten(1);
  }

  /** The map {1: 10, 2: 20, 3: 30, 4: 40} laid out as the tree with root 2,
      whose children are 1 and 4, where 3 is the left child of 4. */
  method Sample() returns (m: TreeMap)
    ensures fresh(m) && m.Valid() && m.root == 0
    ensures m.tree == Br(Br(Nil, 1, 1, 10, Nil), 0, 2, 20, Br(Br(Nil, 3, 3, 30, Nil), 2, 4, 40, Nil))
    ensures m.nodes == [NodeRec(2, 20, -1, 1, 2), NodeRec(1, 10, 0, -1, -1), NodeRec(4, 40, 0, 3, -1), NodeRec(3, 30, 2, -1, -1)]
  {
    m := new TreeMap();
    m.nodes := [NodeRec(2, 20, -1, 1, 2), NodeRec(1, 10, 0, -1, -1), NodeRec(4, 40, 0, 3, -1), NodeRec(3, 30, 2, -1, -1)];
    m.root := 0;
    m.tree := Br(Br(Nil, 1, 1, 10, Nil), 0, 2, 20, Br(Br(Nil, 3, 3, 30, Nil), 2, 4, 40, Nil));
  }

  /** In an arena where node 3 holds key 3 with left child 1 and no right
      child, and node 1 holds key 1 with no children, the child links from
      node 3 reach keys 1 and 3 only. */
  lemma ReachFromThree(t: Tree, ns: seq<NodeRec>)
    requires |ns| == 4 && ns[3] == NodeRec(3, 30, -1, 1, -1) && ns[1] == NodeRec(1, 10, 0, -1, -1)
    requires DownLinked(t, ns) && RootOf(t) == 3
    ensures Keys(t) == {1, 3}
  {
    assert t.Br? && t.id == 3 && t.right.Nil? && t.left.Br? && t.left.id == 1;
    assert DownLinked(t.left, ns);
    assert t.left.left.Nil? && t.left.right.Nil?;
  }

  /** Removing key 2, the root of `Sample()`, as written leaves a root
      whose child links reach only keys 1 and 3: key 4 is lost. */
  method RemoveCounterexample() returns (asWritten: TreeMap)
    ensures asWritten.root == 3
    ensures forall t :: DownLinked(t, asWritten.nodes) && RootOf(t) == asWritten.root ==> Keys(t) == {1, 3}
  {
    asWritten := Sample();
    var temp := asWritten.RemoveTwoChildrenAsWritten(0, Top, asWritten.tree);
    assert temp == 3;
    forall t | DownLinked(t, asWritten.nodes) && RootOf(t) == asWritten.root
      ensures Keys(t) == {1, 3}
    {
      ReachFromThree(t, asWritten.nodes);
    }
  }

  /** The intended removal of key 2 from `Sample()` keeps keys 1, 3 and 4. */
  method RemoveExample() returns (fixed: TreeMap)
    ensures fixed.Valid() && fixed.Contents() == map[1 := 10, 3 := 30, 4 := 40]
  {
    fixed := Sample();
    var r := fixed.Remove(2);
    assert fixed.Contents() == map[1 := 10, 2 := 20, 3 := 30, 4 := 40] - {2};
  }
}
