/**
  The cursor-based tree of Tree.java.

  Nodes are never removed, so the tree is kept as an arena: node `i` holds
  `elem[i]`, its ordered children `kids[i]` and the Java `parent` field
  `par[i]`. The root is node 0. `p` is the cursor. The ghost `origin[i]` is
  the node under which `i` was created.
*/
module Trees {
  import opened Wrappers
  import opened Traversal
  import opened Queues

  /** The two exceptions the Java code throws. */
  datatype TreeError = RootAlreadyExists | InvalidArgument

  /** The ids `lo`, `lo + 1`, ..., `lo + n - 1`. */
  function Ids(lo: nat, n: nat): seq<nat>
  {
    seq(n, k => lo + k)
  }

  /** `n` copies of `v`. */
  function Copies<T>(n: nat, v: T): seq<T>
  {
    seq(n, _ => v)
  }

  /** The inner loop of `toArrayList`: queues the children of the node just served, in order. */
  method EnqueueChildren(q: Queue<nat>, cs: seq<nat>)
    requires q.Valid()
    modifies q.Repr
    ensures q.Valid() && fresh(q.Repr - old(q.Repr))
    ensures q.contents == old(q.contents) + cs
  {
    for j := 0 to |cs|
      invariant q.Valid() && fresh(q.Repr - old(q.Repr))
      invariant q.contents == old(q.contents) + cs[..j]
    {
      var _ := q.Enqueue(cs[j]);
      assert cs[..j + 1] == cs[..j] + [cs[j]];
    }
    assert cs[..|cs|] == cs;
  }

  /** Appending child `|o| + j` of node `cur` to an arena that already received `j` of them. */
  lemma GraftNext(o: seq<seq<nat>>, cur: nat, j: nat)
    requires cur < |o|
    ensures var k := o[cur := o[cur] + Ids(|o|, j)] + Copies(j, []);
      k[cur := k[cur] + [|o| + j]] + [[]] == o[cur := o[cur] + Ids(|o|, j + 1)] + Copies(j + 1, [])
  {
    var k := o[cur := o[cur] + Ids(|o|, j)] + Copies(j, []);
    var lhs := k[cur := k[cur] + [|o| + j]] + [[]];
    var rhs := o[cur := o[cur] + Ids(|o|, j + 1)] + Copies(j + 1, []);
    assert Ids(|o|, j + 1) == Ids(|o|, j) + [|o| + j];
    forall t | 0 <= t < |lhs| ensures lhs[t] == rhs[t] {
      if t >= |o| {
        assert lhs[t] == [] == rhs[t];
      }
    }
  }

  /**
    The loop of `toArrayList`: starting from the root alone in a queue, it
    repeatedly takes the front node, outputs it and queues its children in
    order. It outputs the level order of the arena and hands back the node
    it served last, which the Java code leaves in the cursor.
  */
  method BreadthFirst(kids: seq<seq<nat>>, ghost origin: seq<nat>) returns (positions: seq<nat>, last: nat)
    requires WellFormed(kids, origin) && |kids| > 0
    ensures positions == LevelOrder(kids)
    ensures positions != [] && last == positions[|positions| - 1]
  {
    positions := [];
    var q := new Queue<nat>();
    var _ := q.Enqueue(0);
    ghost var d: nat, i: nat := 0, 0;
    WalkStarts(kids);
    last := 0;
    while !q.IsEmpty()
      invariant q.Valid() && fresh(q.Repr)
      invariant Walk(kids, d, i, q.contents, positions)
      invariant positions != [] ==> last == positions[|positions| - 1]
      decreases |LevelOrder(kids)| - |positions|
    {
      ghost var before := q.contents;
      d, i := WalkStep(kids, origin, d, i, before, positions);
      var served := q.Dequeue();
      assert served == Some(before[0]) && q.contents == before[1..];
      last := served.value;
      positions := positions + [last];
      EnqueueChildren(q, kids[last]);
    }
    WalkEnds(kids, d, i, positions);
  }

  class Tree<E> {
    var size: int
    var root: Option<nat>
    var p: Option<nat>
    var elem: seq<E>
    var kids: seq<seq<nat>>
    var par: seq<Option<nat>>
    ghost var origin: seq<nat>

    /**
      `size` counts the nodes; a tree without a root has no nodes and no
      cursor; the cursor names a node of this tree; the nodes form a tree
      under node 0; and no `parent` field has ever been set.
    */
    ghost predicate Valid()
      reads this
    {
      Linked() && size == |elem|
    }

    /** Everything `Valid` asks for except the node count, which `addChildren` raises before it adds the nodes. */
    ghost predicate Linked()
      reads this
    {
      && |elem| == |kids| == |par|
      && (root.None? <==> elem == [])
      && (root.Some? ==> root.value == 0)
      && (p.None? <==> elem == [])
      && (p.Some? ==> p.value < |elem|)
      && (forall i :: 0 <= i < |par| ==> par[i].None?)
      && WellFormed(kids, origin)
    }

    constructor ()
      ensures Valid()
      ensures size == 0 && root == None && p == None && elem == []
    {
      size, root, p := 0, None, None;
      elem, kids, par, origin := [], [], [], [];
    }

    /** Makes a one-node tree holding `x`, with the cursor on it; fails if a root exists. */
    method AddRoot(x: E) returns (r: Result<E, TreeError>)
      requires Valid()
      modifies this
      ensures Valid()
      ensures old(root).None? ==>
        && r == Success(x)
        && elem == [x] && kids == [[]] && par == [None]
        && root == Some(0) && p == root && size == 1
      ensures old(root).Some? ==> r == Failure(RootAlreadyExists) && unchanged(this)
    {
      if root.None? {
        var n := |elem|;
        elem, kids, par, origin := elem + [x], kids + [[]], par + [None], origin + [n];
        root := Some(n);
        p := root;
        size := size + 1;
        return Success(x);
      }
      return Failure(RootAlreadyExists);
    }

    /**
      Moves the cursor to `node` and returns its element; fails, leaving the
      cursor alone, when there is no cursor yet.
    */
    method SetPosition(node: nat) returns (r: Result<E, TreeError>)
      requires Valid()
      requires p.Some? ==> node < |elem|
      modifies this`p
      ensures Valid()
      ensures old(p).None? ==> r == Failure(InvalidArgument) && p == old(p)
      ensures old(p).Some? ==> r == Success(elem[node]) && p == Some(node)
    {
      if p.None? {
        return Failure(InvalidArgument);
      }
      p := Some(node);
      return Success(elem[p.value]);
    }

    /**
      Creates one node holding `x` as the last child of the cursor node and
      returns `x`; the cursor stays where it is.
    */
    method AddChild(x: E) returns (r: E)
      requires Valid() && p.Some?
      modifies this
      ensures Valid()
      ensures r == x
      ensures elem == old(elem) + [x] && size == old(size) + 1
      ensures kids == old(kids)[old(p).value := old(kids)[old(p).value] + [old(|elem|)]] + [[]]
      ensures par == old(par) + [None] && origin == old(origin) + [old(p).value]
      ensures root == old(root) && p == old(p)
    {
      Graft(x);
      size := size + 1;
      return x;
    }

    /**
      Creates node `|elem|` holding `x` with no children and an unset parent
      field, and appends it to the cursor's child list.
    */
    method Graft(x: E)
      requires Linked() && p.Some?
      modifies this`elem, this`kids, this`par, this`origin
      ensures Linked()
      ensures elem == old(elem) + [x]
      ensures kids == old(kids)[old(p).value := old(kids)[old(p).value] + [old(|elem|)]] + [[]]
      ensures par == old(par) + [None] && origin == old(origin) + [old(p).value]
    {
      var cur := p.value;
      var n := |elem|;
      GraftKeepsWellFormed(kids, origin, cur);
      elem := elem + [x];
      kids := kids[cur := kids[cur] + [n]] + [[]];
      par, origin := par + [None], origin + [cur];
    }

    /**
      Appends the nodes for `xs`, in order, as the last children of the
      cursor. With no cursor, an empty `xs` changes nothing.
    */
    method AddChildren(xs: seq<E>)
      requires Valid() && (p.Some? || xs == [])
      modifies this
      ensures Valid()
      ensures elem == old(elem) + xs && size == old(size) + |xs|
      ensures old(p).Some? ==>
        kids == old(kids)[old(p).value := old(kids)[old(p).value] + Ids(old(|elem|), |xs|)] + Copies(|xs|, [])
      ensures old(p).Some? ==> origin == old(origin) + Copies(|xs|, old(p).value)
      ensures old(p).None? ==> kids == old(kids) && origin == old(origin)
      ensures par == old(par) + Copies(|xs|, None)
      ensures root == old(root) && p == old(p)
    {
      size := size + |xs|;
      ghost var n0 := |elem|;
      if p.Some? {
        assert Ids(n0, 0) == [] && old(kids)[p.value] + [] == old(kids)[p.value];
        assert old(kids)[p.value := old(kids)[p.value]] == old(kids);
      }
      for j := 0 to |xs|
        invariant Linked() && |elem| == n0 + j
        invariant size == old(size) + |xs| && root == old(root) && p == old(p)
        invariant p.Some? ==> p.value < |old(kids)|
        invariant elem == old(elem) + xs[..j]
        invariant p.Some? ==> kids == old(kids)[p.value := old(kids)[p.value] + Ids(n0, j)] + Copies(j, [])
        invariant p.Some? ==> origin == old(origin) + Copies(j, p.value)
        invariant p.None? ==> kids == old(kids) && origin == old(origin)
        invariant par == old(par) + Copies(j, None)
      {
        var cur := p.value;
        GraftNext(old(kids), cur, j);
        assert xs[..j + 1] == xs[..j] + [xs[j]];
        assert Copies<Option<nat>>(j + 1, None) == Copies(j, None) + [None];
        assert Copies(j + 1, cur) == Copies(j, cur) + [cur];
        Graft(xs[j]);
      }
      assert xs[..|xs|] == xs;
    }

    /** The root node, absent while the tree is empty. */
    function Root(): (r: Option<nat>)
      reads this
      requires Valid()
      ensures r.None? <==> size == 0
      ensures r.Some? ==> r.value < size && forall i :: 0 <= i < size ==> r.value !in kids[i]
    {
      root
    }

    /** The Java `parent()`: since no `parent` field is ever assigned, it is always absent. */
    function Parent(): (r: Option<nat>)
      reads this
      requires Valid()
      ensures r == None
    {
      if p.None? then None else par[p.value]
    }

    /** The cursor node's children: exactly the nodes created under it, each once, in creation order. */
    function Children(): (r: seq<nat>)
      reads this
      requires Valid() && p.Some?
      ensures Distinct(r)
      ensures forall c: nat :: c in r <==> 0 < c < size && origin[c] == p.value
      ensures forall a, b :: 0 <= a < b < |r| ==> r[a] < r[b]
    {
      kids[p.value]
    }

    /** How many children the cursor node has, or -1 when there is no cursor. */
    function NumChildren(): (r: int)
      reads this
      requires Valid()
      ensures r == -1 <==> size == 0
      ensures size > 0 ==> r == |Children()|
    {
      if p.None? then -1 else |kids[p.value]|
    }

    /** Whether the cursor node has a child. */
    function IsInternal(): (r: bool)
      reads this
      requires Valid()
      ensures r <==> p.Some? && exists c :: 0 < c < size && origin[c] == p.value
    {
      if p.None? then false
      else
        HasChildIff(kids, origin, p.value);
        NumChildren() > 0
    }

    /** Whether the cursor node has no child. */
    function IsExternal(): (r: bool)
      reads this
      requires Valid()
      ensures r <==> p.Some? && forall c :: 0 < c < size ==> origin[c] != p.value
    {
      if p.None? then false
      else
        HasChildIff(kids, origin, p.value);
        NumChildren() == 0
    }

    /** The Java `isRoot()`: an empty tree counts as root and no `parent` is ever set, so it always holds. */
    function IsRoot(): (r: bool)
      reads this
      requires Valid()
      ensures r
    {
      if size == 0 then true else par[p.value].None?
    }

    /** The number of nodes. */
    function Size(): (r: int)
      reads this
      requires Valid()
      ensures r == |elem|
    {
      size
    }

    /** Whether the tree has no node. */
    function IsEmpty(): (r: bool)
      reads this
      requires Valid()
      ensures r <==> root.None?
      ensures r <==> p.None?
    {
      size == 0
    }

    /**
      All nodes in breadth-first order, drained from a queue seeded with the
      root; the cursor is left on the last node visited.
    */
    method ToArrayList() returns (positions: seq<nat>)
      requires Valid()
      modifies this`p
      ensures Valid()
      ensures positions == LevelOrder(kids)
      ensures |positions| == size && Distinct(positions)
      ensures forall x: nat :: x in positions <==> x < size
      ensures DepthSorted(origin, positions)
      ensures old(root).None? ==> positions == [] && p == old(p)
      ensures old(root).Some? ==> positions[0] == root.value && p == Some(positions[|positions| - 1])
    {
      if root.None? {
        return [];
      }
      var last;
      positions, last := BreadthFirst(kids, origin);
      LevelOrderVisitsEveryNodeOnce(kids, origin);
      assert last in positions;
      p := Some(last);
    }

    /** The Java `positions()`: the same breadth-first listing as `ToArrayList`. */
    method Positions() returns (positions: seq<nat>)
      requires Valid()
      modifies this`p
      ensures Valid()
      ensures positions == LevelOrder(kids)
      ensures old(root).None? ==> p == old(p)
      ensures old(root).Some? ==> p == Some(positions[|positions| - 1])
    {
      positions := ToArrayList();
    }
  }

  /** Level order of the arena with children `[1, 2]` under the root and `[3]` under node 1. */
  lemma SmallLevelOrder()
    ensures LevelOrder([[1, 2], [3], [], []]) == [0, 1, 2, 3]
  {
    var kids: seq<seq<nat>> := [[1, 2], [3], [], []];
    assert Next(kids, [0]) == [1, 2] by {
      assert ChildrenOf(kids, [0], 0) == [];
    }
    assert Next(kids, [1, 2]) == [3] by {
      assert ChildrenOf(kids, [1, 2], 1) == [3];
    }
    assert Next(kids, [3]) == [] by {
      assert ChildrenOf(kids, [3], 0) == [];
    }
    assert Levels(kids, [3], 2) == [3];
    assert Levels(kids, [1, 2], 3) == [1, 2, 3];
  }

  /**
    A small session: root `a`, children `b` and `c`, then `d` under `b`.
    Nodes are numbered in creation order, so `elems` lists them by id;
    breadth-first listing puts `d` (node 3) after its uncle `c` (node 2),
    and the cursor ends on `d`.
  */
  method BuildAndList() returns (positions: seq<nat>, elems: seq<char>, cursor: Option<nat>)
    ensures positions == [0, 1, 2, 3]
    ensures elems == ['a', 'b', 'c', 'd']
    ensures cursor == Some(3)
  {
    var t := new Tree<char>();
    var _ := t.AddRoot('a');
    assert t.kids == [[]] && t.p == Some(0);
    t.AddChildren(['b', 'c']);
    assert Ids(1, 2) == [1, 2] && Copies<seq<nat>>(2, []) == [[], []];
    assert [] + [1, 2] == [1, 2];
    assert t.kids == [[1, 2], [], []];
    var _ := t.SetPosition(1);
    var _ := t.AddChild('d');
    assert [] + [3] == [3];
    assert t.kids == [[1, 2], [3], [], []];
    positions := t.ToArrayList();
    SmallLevelOrder();
    elems, cursor := t.elem, t.p;
  }
}
