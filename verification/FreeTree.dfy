/** The search tree of free blocks (mcucpp/allocators/btree_alloc.h). */
module FreeTree {

  /** A free block: the size never changes here, the links do. */
  class FreeHeader {
    const size: nat
    var less: FreeHeader?
    var more: FreeHeader?

    constructor (size: nat)
      ensures this.size == size && less == null && more == null
    {
      this.size := size;
      less, more := null, null;
    }
  }

  /** The variable that points at the root. */
  class Root {
    var top: FreeHeader?
  }

  /** The shape of a tree, with the blocks at its nodes. */
  datatype Tree = Nil | Node(less: Tree, node: FreeHeader, more: Tree)

  ghost function Nodes(t: Tree): set<FreeHeader>
  {
    match t
    case Nil => {}
    case Node(l, n, m) => Nodes(l) + {n} + Nodes(m)
  }

  /** Every block occurs once. */
  ghost predicate Distinct(t: Tree)
  {
    match t
    case Nil => true
    case Node(l, n, m) => Distinct(l) && Distinct(m) && n !in Nodes(l) && n !in Nodes(m) && Nodes(l) !! Nodes(m)
  }

  /** The search order: a block's left subtree holds sizes up to its own, the right one larger sizes. */
  ghost predicate Ordered(t: Tree)
  {
    match t
    case Nil => true
    case Node(l, n, m) =>
      && Ordered(l) && Ordered(m)
      && (forall x :: x in Nodes(l) ==> x.size <= n.size)
      && (forall x :: x in Nodes(m) ==> n.size < x.size)
  }

  /** The two links of some blocks. */
  type Links = map<FreeHeader, (FreeHeader?, FreeHeader?)>

  ghost function LinksOf(blocks: set<FreeHeader>): (h: Links)
    reads blocks
    ensures h.Keys == blocks && forall n :: n in blocks ==> h[n] == (n.less, n.more)
  {
    map n | n in blocks :: (n.less, n.more)
  }

  /** The links from `p` on have the shape `t`. */
  ghost predicate Shape(h: Links, p: FreeHeader?, t: Tree)
  {
    match t
    case Nil => p == null
    case Node(l, n, m) => p == n && n in h && Shape(h, h[n].0, l) && Shape(h, h[n].1, m)
  }

  /** Links of blocks outside a tree do not matter to it. */
  lemma {:induction false} ShapeFrame(h: Links, h': Links, p: FreeHeader?, t: Tree)
    requires Shape(h, p, t) && forall n :: n in Nodes(t) && n in h ==> n in h' && h'[n] == h[n]
    ensures Shape(h', p, t)
  {
    match t
    case Nil =>
    case Node(l, n, m) =>
      ShapeFrame(h, h', h[n].0, l);
      ShapeFrame(h, h', h[n].1, m);
  }

  /** Insertion as the search order wants it. */
  ghost function Insert(t: Tree, x: FreeHeader): Tree
  {
    match t
    case Nil => Node(Nil, x, Nil)
    case Node(l, n, m) => if n.size < x.size then Node(l, n, Insert(m, x)) else Node(Insert(l, x), n, m)
  }

  lemma {:induction false} InsertAdds(t: Tree, x: FreeHeader)
    requires Distinct(t) && x !in Nodes(t)
    ensures Nodes(Insert(t, x)) == Nodes(t) + {x} && Distinct(Insert(t, x))
    ensures Ordered(t) ==> Ordered(Insert(t, x))
  {
    match t
    case Nil =>
    case Node(l, n, m) =>
      if n.size < x.size {
        InsertAdds(m, x);
      } else {
        InsertAdds(l, x);
      }
  }

  /** The subtree where a search for `size` goes on. */
  ghost function Towards(t: Tree, size: nat): Tree
    requires t.Node?
  {
    if t.node.size < size then t.more else t.less
  }

  /** `sub` lies on the search path of `size` in `t`. */
  ghost predicate OnPath(t: Tree, sub: Tree, size: nat)
  {
    t == sub || (t.Node? && OnPath(Towards(t, size), sub, size))
  }

  lemma PathStart(t: Tree, size: nat)
    ensures OnPath(t, t, size)
  {
  }

  lemma {:induction false} PathStep(t: Tree, sub: Tree, size: nat)
    requires OnPath(t, sub, size) && sub.Node?
    ensures OnPath(t, Towards(sub, size), size) && sub.node in Nodes(t)
  {
    if t == sub {
      assert OnPath(Towards(t, size), Towards(sub, size), size);
    } else {
      PathStep(Towards(t, size), sub, size);
    }
  }

  /** The links after `x` is hung below `n` on the side its size belongs. */
  ghost function Hang(h: Links, n: FreeHeader, x: FreeHeader): Links
    requires n in h
  {
    h[n := if n.size < x.size then (h[n].0, x) else (x, h[n].1)]
  }

  /** Hanging the new block below the end of its search path is `Insert`. */
  lemma {:induction false} HangInserts(h: Links, p: FreeHeader?, t: Tree, sub: Tree, x: FreeHeader)
    requires Distinct(t) && Shape(h, p, t) && x !in Nodes(t)
    requires OnPath(t, sub, x.size) && sub.Node? && Towards(sub, x.size).Nil?
    requires sub.node in h && x in h && h[x] == (null, null)
    ensures Shape(Hang(h, sub.node, x), p, Insert(t, x))
    decreases t
  {
    var h' := Hang(h, sub.node, x);
    var n := t.node;
    var next, other := Towards(t, x.size), if n.size < x.size then t.less else t.more;
    if t == sub {
      ShapeFrame(h, h', if n.size < x.size then h[n].0 else h[n].1, other);
    } else {
      PathStep(next, sub, x.size);
      ShapeFrame(h, h', if n.size < x.size then h[n].0 else h[n].1, other);
      HangInserts(h, if n.size < x.size then h[n].1 else h[n].0, next, sub, x);
    }
  }

  lemma ShapeStep(h: Links, p: FreeHeader?, t: Tree)
    requires Shape(h, p, t)
    ensures p == null <==> t.Nil?
    ensures p != null ==> p == t.node && p in h && Shape(h, h[p].0, t.less) && Shape(h, h[p].1, t.more)
  {
  }

  /** `InsertNode`: descend to a free link and hang the block there; an empty tree is left alone. */
  method InsertNode(root: FreeHeader?, node: FreeHeader, ghost t: Tree)
    requires Shape(LinksOf(Nodes(t)), root, t) && Distinct(t) && Ordered(t)
    requires node !in Nodes(t) && node.less == null && node.more == null
    modifies Nodes(t)
    ensures root == null ==> t == Nil
    ensures root != null ==> Shape(LinksOf(Nodes(Insert(t, node))), root, Insert(t, node))
    ensures Distinct(Insert(t, node)) && Ordered(Insert(t, node)) && Nodes(Insert(t, node)) == Nodes(t) + {node}
  {
    hide Shape, Insert, Distinct, Ordered, OnPath, Nodes, LinksOf;
    InsertAdds(t, node);
    PathStart(t, node.size);
    ghost var blocks := Nodes(t) + {node};
    ghost var h := LinksOf(blocks);
    ShapeFrame(LinksOf(Nodes(t)), h, root, t);
    ShapeStep(h, root, t);
    var current := root;
    ghost var sub := t;
    while current != null
      invariant Shape(h, current, sub) && OnPath(t, sub, node.size)
      invariant h == LinksOf(blocks)
      invariant root != null ==> current != null
      decreases sub
    {
      ShapeStep(h, current, sub);
      PathStep(t, sub, node.size);
      if current.size < node.size {
        ShapeStep(h, h[current].1, sub.more);
        if current.more != null {
          current, sub := current.more, sub.more;
        } else {
          current.more := node;
          HangInserts(h, root, t, sub, node);
          assert LinksOf(blocks) == Hang(h, current, node);
          return;
        }
      } else {
        ShapeStep(h, h[current].0, sub.less);
        if current.less != null {
          current, sub := current.less, sub.less;
        } else {
          current.less := node;
          HangInserts(h, root, t, sub, node);
          assert LinksOf(blocks) == Hang(h, current, node);
          return;
        }
      }
    }
  }

  /** The variable or field that points at a block. */
  datatype Cell = TopOf(root: Root) | LessOf(p: FreeHeader) | MoreOf(p: FreeHeader)

  /** The subtree below block `n`, and the cell that points at it. */
  ghost function SubtreeAt(t: Tree, n: FreeHeader): (sub: Tree)
    requires n in Nodes(t)
    ensures sub.Node? && sub.node == n
  {
    if t.node == n then t else if n in Nodes(t.less) then SubtreeAt(t.less, n) else SubtreeAt(t.more, n)
  }

  ghost function CellOf(cell: Cell, t: Tree, n: FreeHeader): Cell
    requires n in Nodes(t)
    decreases t
  {
    if t.node == n then cell
    else if n in Nodes(t.less) then CellOf(LessOf(t.node), t.less, n)
    else CellOf(MoreOf(t.node), t.more, n)
  }

  /** The cases the deletion can handle: a missing child, or a left child without a right one. */
  ghost predicate Removable(sub: Tree)
    requires sub.Node?
  {
    sub.less.Nil? || sub.more.Nil? || sub.less.more.Nil?
  }

  /** The two subtrees of a removed block, joined. */
  ghost function Join(l: Tree, m: Tree): Tree
  {
    if l.Nil? then m else if m.Nil? then l else Node(l.less, l.node, m)
  }

  ghost function Top(t: Tree): FreeHeader?
  {
    if t.Nil? then null else t.node
  }

  ghost function Remove(t: Tree, n: FreeHeader): Tree
    requires n in Nodes(t)
  {
    if t.node == n then Join(t.less, t.more)
    else if n in Nodes(t.less) then Node(Remove(t.less, n), t.node, t.more)
    else Node(t.less, t.node, Remove(t.more, n))
  }

  lemma JoinKeeps(t: Tree)
    requires Distinct(t) && t.Node? && Removable(t)
    ensures Nodes(Join(t.less, t.more)) == Nodes(t) - {t.node} && Distinct(Join(t.less, t.more))
  {
    var l, m := t.less, t.more;
    if l.Node? && m.Node? {
      assert Nodes(l) == Nodes(l.less) + {l.node};
    }
  }

  lemma JoinOrdered(t: Tree)
    requires Ordered(t) && t.Node? && Removable(t)
    ensures Ordered(Join(t.less, t.more))
  {
    var l, m := t.less, t.more;
    if l.Node? && m.Node? {
      assert l.node in Nodes(l);
      forall x | x in Nodes(m)
        ensures l.node.size < x.size
      {
        assert l.node.size <= t.node.size < x.size;
      }
    }
  }

  lemma {:induction false} RemoveKeeps(t: Tree, n: FreeHeader)
    requires Distinct(t) && n in Nodes(t) && Removable(SubtreeAt(t, n))
    ensures Nodes(Remove(t, n)) == Nodes(t) - {n} && Distinct(Remove(t, n))
    ensures Ordered(t) ==> Ordered(Remove(t, n))
  {
    if t.node == n {
      JoinKeeps(t);
      if Ordered(t) {
        JoinOrdered(t);
      }
    } else if n in Nodes(t.less) {
      RemoveKeeps(t.less, n);
    } else {
      RemoveKeeps(t.more, n);
    }
  }

  /** The links after the children of `sub.node` are joined. */
  ghost function Joined(h: Links, sub: Tree): Links
    requires sub.Node?
  {
    var l := sub.less;
    if l.Node? && sub.more.Node? && l.node in h then h[l.node := (h[l.node].0, Top(sub.more))] else h
  }

  /** The links after a cell is assigned. */
  ghost function Assigned(h: Links, cell: Cell, v: FreeHeader?): Links
  {
    match cell
    case TopOf(_) => h
    case LessOf(p) => if p in h then h[p := (v, h[p].1)] else h
    case MoreOf(p) => if p in h then h[p := (h[p].0, v)] else h
  }

  ghost function Unlinked(h: Links, cell: Cell, t: Tree, n: FreeHeader): Links
    requires n in Nodes(t)
  {
    var sub := SubtreeAt(t, n);
    Joined(Assigned(h, CellOf(cell, t, n), Top(Join(sub.less, sub.more))), sub)[n := (null, null)]
  }

  lemma {:induction false} SubtreeNodes(t: Tree, n: FreeHeader)
    requires n in Nodes(t)
    ensures Nodes(SubtreeAt(t, n)) <= Nodes(t)
    ensures forall h: Links, p: FreeHeader? :: Distinct(t) && Shape(h, p, t) ==>
              Shape(h, n, SubtreeAt(t, n)) && Distinct(SubtreeAt(t, n))
  {
    if t.node == n {
    } else if n in Nodes(t.less) {
      SubtreeNodes(t.less, n);
    } else {
      SubtreeNodes(t.more, n);
    }
  }

  /** Unlinking changes only links of the tree's own blocks and, for the root block, of the cell's owner. */
  lemma {:induction false} UnlinkedFrame(h: Links, cell: Cell, t: Tree, n: FreeHeader, x: FreeHeader)
    requires n in Nodes(t) && x in h && x !in Nodes(t)
    ensures x in Unlinked(h, cell, t, n)
    ensures t.node != n || cell.TopOf? || cell.p != x ==> Unlinked(h, cell, t, n)[x] == h[x]
    ensures t.node == n && cell == LessOf(x) ==> Unlinked(h, cell, t, n)[x] == (Top(Remove(t, n)), h[x].1)
    ensures t.node == n && cell == MoreOf(x) ==> Unlinked(h, cell, t, n)[x] == (h[x].0, Top(Remove(t, n)))
    decreases t
  {
    if t.node == n {
    } else if n in Nodes(t.less) {
      UnlinkedFrame(h, LessOf(t.node), t.less, n, x);
    } else {
      UnlinkedFrame(h, MoreOf(t.node), t.more, n, x);
    }
  }

  /** Unlinking is `Remove`. */
  lemma {:induction false} UnlinkRemoves(h: Links, p: FreeHeader?, cell: Cell, t: Tree, n: FreeHeader)
    requires Distinct(t) && Shape(h, p, t) && n in Nodes(t) && Removable(SubtreeAt(t, n))
    requires cell.TopOf? || cell.p !in Nodes(t)
    ensures Shape(Unlinked(h, cell, t, n), if t.node == n then Top(Remove(t, n)) else p, Remove(t, n))
    decreases t
  {
    var h' := Unlinked(h, cell, t, n);
    var x := t.node;
    if x == n {
      RemovesRoot(h, p, cell, t);
    } else if n in Nodes(t.less) {
      UnlinkRemoves(h, h[x].0, LessOf(x), t.less, n);
      UnlinkedFrame(h, LessOf(x), t.less, n, x);
      forall y | y in Nodes(t.more) && y in h
        ensures y in h' && h'[y] == h[y]
      {
        UnlinkedFrame(h, LessOf(x), t.less, n, y);
      }
      ShapeFrame(h, h', h[x].1, t.more);
    } else {
      UnlinkRemoves(h, h[x].1, MoreOf(x), t.more, n);
      UnlinkedFrame(h, MoreOf(x), t.more, n, x);
      forall y | y in Nodes(t.less) && y in h
        ensures y in h' && h'[y] == h[y]
      {
        UnlinkedFrame(h, MoreOf(x), t.more, n, y);
      }
      ShapeFrame(h, h', h[x].0, t.less);
    }
  }

  lemma RemovesRoot(h: Links, p: FreeHeader?, cell: Cell, t: Tree)
    requires Distinct(t) && Shape(h, p, t) && t.Node? && Removable(t)
    requires cell.TopOf? || cell.p !in Nodes(t)
    ensures Shape(Unlinked(h, cell, t, t.node), Top(Join(t.less, t.more)), Join(t.less, t.more))
  {
    var h' := Unlinked(h, cell, t, t.node);
    var l, m := t.less, t.more;
    if l.Node? && m.Node? {
      ShapeFrame(h, h', h[l.node].0, l.less);
      ShapeFrame(h, h', h[t.node].1, m);
    } else if l.Node? {
      ShapeFrame(h, h', h[t.node].0, l);
    } else {
      ShapeFrame(h, h', h[t.node].1, m);
    }
  }

  method Assign(cell: Cell, v: FreeHeader?, ghost blocks: set<FreeHeader>)
    requires !cell.TopOf? ==> cell.p in blocks
    modifies match cell case TopOf(r) => {r as object} case LessOf(p) => {p} case MoreOf(p) => {p}
    ensures LinksOf(blocks) == Assigned(old(LinksOf(blocks)), cell, v)
    ensures cell.TopOf? ==> cell.root.top == v
  {
    match cell
    case TopOf(r) => r.top := v;
    case LessOf(p) => p.less := v;
    case MoreOf(p) => p.more := v;
  }

  lemma {:induction false} CellInTree(cell: Cell, t: Tree, n: FreeHeader)
    requires n in Nodes(t) && Distinct(t)
    ensures var c := CellOf(cell, t, n);
            if t.node == n then c == cell else !c.TopOf? && c.p in Nodes(t) && c.p !in Nodes(SubtreeAt(t, n))
    decreases t
  {
    if t.node == n {
    } else if n in Nodes(t.less) {
      CellInTree(LessOf(t.node), t.less, n);
      SubtreeNodes(t.less, n);
    } else {
      CellInTree(MoreOf(t.node), t.more, n);
      SubtreeNodes(t.more, n);
    }
  }

  /** The first cases of the deletion: at most one child. */
  method ReplaceByChild(node: FreeHeader, parent: Cell, root: Root, ghost sub: Tree, ghost blocks: set<FreeHeader>)
    requires sub.Node? && sub.node == node && node in blocks && (node.less == null || node.more == null)
    requires node.less == Top(sub.less) && node.more == Top(sub.more)
    requires parent == TopOf(root) || (!parent.TopOf? && parent.p in blocks)
    modifies root, blocks
    ensures Removable(sub)
    ensures LinksOf(blocks) == Joined(Assigned(old(LinksOf(blocks)), parent, Top(Join(sub.less, sub.more))), sub)
    ensures root.top == if parent.TopOf? then Top(Join(sub.less, sub.more)) else old(root.top)
  {
    hide LinksOf, Assigned;
    if node.less == null && node.more == null {
      Assign(parent, null, blocks);
    } else if node.less != null {
      Assign(parent, node.less, blocks);
    } else {
      Assign(parent, node.more, blocks);
    }
  }

  /** The last case of the deletion: two children. */
  method JoinChildren(node: FreeHeader, parent: Cell, root: Root, ghost sub: Tree, ghost blocks: set<FreeHeader>)
    returns (completed: bool)
    requires sub.Node? && sub.node == node && Shape(LinksOf(blocks), node, sub)
    requires node in blocks && node.less != null && node.more != null
    requires parent == TopOf(root) || (!parent.TopOf? && parent.p in blocks && parent.p != node.less)
    modifies root, blocks
    ensures completed <==> Removable(sub)
    ensures completed ==>
              LinksOf(blocks) == Joined(Assigned(old(LinksOf(blocks)), parent, Top(Join(sub.less, sub.more))), sub)
    ensures completed ==> root.top == if parent.TopOf? then Top(Join(sub.less, sub.more)) else old(root.top)
    ensures !completed ==> LinksOf(blocks) == Assigned(old(LinksOf(blocks)), parent, null)
    ensures !completed ==> root.top == if parent.TopOf? then null else old(root.top)
  {
    hide LinksOf, Shape;
    ShapeTop(LinksOf(blocks), sub);
    var tmpLess := node.less;
    var tmpMore := node.more;
    if tmpLess.more == null {
      Assign(parent, tmpLess, blocks);
      Assign(MoreOf(tmpLess), tmpMore, blocks);
      completed := true;
    } else {
      var largestParent := LastMore(tmpLess.more, sub.less.more, blocks);
      var largest := largestParent.more;
      Assign(parent, largest, blocks);
      completed := largest != null;  // the code goes on through `largest`
    }
  }

  /** `DeleteNode`: join the children of `node` into the cell `parent` that points at it. When the left child has
      a right child of its own the code follows a null link instead: it completes exactly in the other cases. */
  method DeleteNode(node: FreeHeader, parent: Cell, root: Root, ghost t: Tree) returns (completed: bool)
    requires Shape(LinksOf(Nodes(t)), root.top, t) && Distinct(t) && Ordered(t)
    requires node in Nodes(t) && parent == CellOf(TopOf(root), t, node)
    modifies root, Nodes(t)
    ensures completed <==> old(node.less == null || node.more == null || node.less.more == null)
    ensures completed <==> Removable(SubtreeAt(t, node))
    ensures completed ==> Shape(LinksOf(Nodes(t)), root.top, Remove(t, node)) && node.less == null && node.more == null
    ensures completed ==> Ordered(Remove(t, node)) && Distinct(Remove(t, node))
    ensures completed ==> Nodes(Remove(t, node)) == Nodes(t) - {node}
    ensures !completed ==> LinksOf(Nodes(t)) == Assigned(old(LinksOf(Nodes(t))), parent, null)
    ensures !completed ==> root.top == if parent.TopOf? then null else old(root.top)
  {
    hide Shape, Distinct, Ordered, Nodes, LinksOf, SubtreeAt, CellOf, Remove, Joined, Assigned, Join, Removable;
    ghost var h := LinksOf(Nodes(t));
    ghost var sub := SubtreeAt(t, node);
    SubtreeNodes(t, node);
    CellInTree(TopOf(root), t, node);
    ShapeTop(h, sub);
    RemovableLinks(h, sub);
    completed := true;
    if node.less == null || node.more == null {
      ReplaceByChild(node, parent, root, sub, Nodes(t));
    } else {
      completed := JoinChildren(node, parent, root, sub, Nodes(t));
      if !completed {
        return;
      }
    }
    Clear(node, Nodes(t));
    SplicedRemoves(h, old(root.top), root, t, node);
    RemoveKeeps(t, node);
  }

  /** The condition as a caller can read it off the links. */
  lemma RemovableLinks(h: Links, sub: Tree)
    requires sub.Node? && Shape(h, sub.node, sub)
    ensures var (less, more) := h[sub.node];
            && (less != null ==> less in h && less in Nodes(sub))
            && (Removable(sub) <==> less == null || more == null || h[less].1 == null)
  {
    ShapeStep(h, sub.node, sub);
    ShapeStep(h, h[sub.node].0, sub.less);
    ShapeStep(h, h[sub.node].1, sub.more);
    if sub.less.Node? {
      ShapeStep(h, h[sub.less.node].1, sub.less.more);
    }
  }

  /** A tree whose root the deletion cannot handle: sizes 1 and 2 on its left, one block on its right. */
  lemma DeletionFails(a: FreeHeader, b: FreeHeader, c: FreeHeader, d: FreeHeader)
    requires a.size == 3 && b.size == 1 && c.size == 2 && d.size == 4
    ensures var t := Node(Node(Nil, b, Node(Nil, c, Nil)), a, Node(Nil, d, Nil));
            Distinct(t) && Ordered(t) && a in Nodes(t) && !Removable(SubtreeAt(t, a))
  {
    Leaf(c);
    Leaf(d);
    var m, r := Node(Nil, c, Nil), Node(Nil, d, Nil);
    var l := Node(Nil, b, m);
    assert Nodes(l) == {b, c} && Distinct(l) && Ordered(l);
  }

  lemma Leaf(x: FreeHeader)
    ensures var t := Node(Nil, x, Nil); Nodes(t) == {x} && Distinct(t) && Ordered(t)
  {
  }

  method Clear(node: FreeHeader, ghost blocks: set<FreeHeader>)
    requires node in blocks
    modifies node
    ensures LinksOf(blocks) == old(LinksOf(blocks))[node := (null, null)]
    ensures node.less == null && node.more == null
  {
    node.less := null;
    node.more := null;
  }

  lemma SplicedRemoves(h: Links, top: FreeHeader?, root: Root, t: Tree, n: FreeHeader)
    requires Shape(h, top, t) && Distinct(t) && n in Nodes(t) && Removable(SubtreeAt(t, n))
    ensures var sub := SubtreeAt(t, n);
            var joined := Top(Join(sub.less, sub.more));
            var cell := CellOf(TopOf(root), t, n);
            Shape(Joined(Assigned(h, cell, joined), sub)[n := (null, null)],
                  if cell.TopOf? then joined else top, Remove(t, n))
  {
    hide Shape, Joined, Assigned, Join, Removable, Distinct;
    CellInTree(TopOf(root), t, n);
    RemoveTop(t, n);
    UnlinkRemoves(h, top, TopOf(root), t, n);
  }

  lemma RemoveTop(t: Tree, n: FreeHeader)
    requires n in Nodes(t)
    ensures t.node == n ==> SubtreeAt(t, n) == t && Remove(t, n) == Join(t.less, t.more)
  {
  }

  /** The loop that looks for the largest block of a left subtree: it stops where there is no right child. */
  method LastMore(start: FreeHeader, ghost s: Tree, ghost blocks: set<FreeHeader>) returns (largestParent: FreeHeader)
    requires Shape(LinksOf(blocks), start, s)
    ensures largestParent.more == null
  {
    hide Shape, LinksOf;
    largestParent := start;
    ghost var sub := s;
    ShapeStep(LinksOf(blocks), start, sub);
    while largestParent.more != null
      invariant Shape(LinksOf(blocks), largestParent, sub)
      decreases sub
    {
      ShapeStep(LinksOf(blocks), largestParent, sub);
      largestParent, sub := largestParent.more, sub.more;
    }
  }

  /** The links of a block and of its left child, read off the shape. */
  lemma ShapeTop(h: Links, sub: Tree)
    requires sub.Node? && Shape(h, sub.node, sub)
    ensures sub.node in h && h[sub.node] == (Top(sub.less), Top(sub.more))
    ensures sub.less.Node? ==>
              sub.less.node in h && sub.less.node in Nodes(sub) &&
              h[sub.less.node] == (Top(sub.less.less), Top(sub.less.more))
                  && Shape(h, h[sub.less.node].1, sub.less.more)
  {
  }
}
