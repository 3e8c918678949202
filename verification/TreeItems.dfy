/** Leaves and node values of a tree in order, and what every move and edit of the zipper does to
    them. */
module TreeItems {
  import opened Sequences
  import opened Wrappers
  import opened BinTree

  datatype Item<L, N> = LeafItem(leaf: L) | NodeItem(data: Option<N>)

  /** A node's value stands between its branches. */
  function Items<L, N>(t: Tree<L, N>): seq<Item<L, N>> {
    match t
    case Empty => []
    case Leaf(l) => [LeafItem(l)]
    case Node(left, right, data) => Items(left) + [NodeItem(data)] + Items(right)
  }

  /** What stands before and after a position. */
  function ItemsBefore<L, N>(path: Path<L, N>): seq<Item<L, N>> {
    match path
    case Top => []
    case Left(_, _, up) => ItemsBefore(up)
    case Right(left, data, up) => ItemsBefore(up) + (Items(left) + [NodeItem(data)])
  }

  function ItemsAfter<L, N>(path: Path<L, N>): seq<Item<L, N>> {
    match path
    case Top => []
    case Left(right, data, up) => ([NodeItem(data)] + Items(right)) + ItemsAfter(up)
    case Right(_, _, up) => ItemsAfter(up)
  }

  /** The items of the whole tree, seen from a position. */
  lemma {:induction false} ItemsAround<L, N>(it: Tree<L, N>, path: Path<L, N>)
    ensures Items(Rebuilt(it, path)) == ItemsBefore(path) + Items(it) + ItemsAfter(path)
    decreases path
  {
    match path
    case Top =>
    case Right(left, data, up) =>
      ItemsAround(Node(left, it, data), up);
      Associative(ItemsBefore(up), Items(left) + [NodeItem(data)], Items(it));
    case Left(right, data, up) =>
      ItemsAround(Node(it, right, data), up);
      var node: seq<Item<L, N>> := [NodeItem(data)];
      Associative(Items(it), node, Items(right));
      Associative(ItemsBefore(up), Items(it), node + Items(right));
      Associative(ItemsBefore(up) + Items(it), node + Items(right), ItemsAfter(up));
  }

  // ----- moves -----

  /** A step down works exactly on nodes, and a step up leads back: to the left nothing more comes
      before the position, to the right nothing more after it. */
  lemma StepsDown<L, N>(c: Cursor<L, N>)
    ensures GoLeft(c).Ok? <==> c.it.Node?
    ensures GoRight(c).Ok? <==> c.it.Node?
    ensures GoLeft(c).Ok? ==>
      && GoUp(GoLeft(c).value) == Ok(c)
      && ItemsBefore(GoLeft(c).value.path) == ItemsBefore(c.path) && GoLeft(c).value.it == c.it.left
    ensures GoRight(c).Ok? ==>
      && GoUp(GoRight(c).value) == Ok(c)
      && ItemsAfter(GoRight(c).value.path) == ItemsAfter(c.path) && GoRight(c).value.it == c.it.right
  {
  }

  /** A step up works exactly below the top, and is undone by a step down. */
  lemma StepUp<L, N>(c: Cursor<L, N>)
    ensures GoUp(c).Ok? <==> !c.path.Top?
    ensures GoUp(c).Ok? ==> GoLeft(GoUp(c).value) == Ok(c) || GoRight(GoUp(c).value) == Ok(c)
  {
  }

  // ----- edits -----

  /** The tree without its node values. */
  function Blank<L, N>(t: Tree<L, N>): Tree<L, N> {
    match t
    case Node(left, right, _) => Node(Blank(left), Blank(right), None)
    case _ => t
  }

  lemma {:induction false} BlankAround<L, N>(a: Tree<L, N>, b: Tree<L, N>, path: Path<L, N>)
    requires Blank(a) == Blank(b)
    ensures Blank(Rebuilt(a, path)) == Blank(Rebuilt(b, path))
    decreases path
  {
    match path
    case Top =>
    case Right(left, data, up) => BlankAround(Node(left, a, data), Node(left, b, data), up);
    case Left(right, data, up) => BlankAround(Node(a, right, data), Node(b, right, data), up);
  }

  /** Assigning works exactly on nodes, replaces the value there and nothing else, and keeps the shape
      and the leaves. */
  lemma AssignNodeIs<L, N>(c: Cursor<L, N>, data: Option<N>)
    ensures AssignNode(c, data).Ok? <==> c.it.Node?
    ensures AssignNode(c, data).Ok? ==>
      var before, after := ItemsBefore(c.path) + Items(c.it.left), Items(c.it.right) + ItemsAfter(c.path);
      && Items(TreeOf(c)) == before + [NodeItem(c.it.data)] + after
      && Items(TreeOf(AssignNode(c, data).value)) == before + [NodeItem(data)] + after
      && Blank(TreeOf(AssignNode(c, data).value)) == Blank(TreeOf(c))
      && AssignNode(c, data).value.path == c.path
  {
    if c.it.Node? {
      var r := AssignNode(c, data).value;
      NodeAround(c.it.left, c.it.right, c.it.data, c.path);
      NodeAround(c.it.left, c.it.right, data, c.path);
      BlankAround(r.it, c.it, c.path);
    }
  }

  lemma NodeAround<L, N>(left: Tree<L, N>, right: Tree<L, N>, data: Option<N>, path: Path<L, N>)
    ensures Items(Rebuilt(Node(left, right, data), path))
         == (ItemsBefore(path) + Items(left)) + [NodeItem(data)] + (Items(right) + ItemsAfter(path))
  {
    ItemsAround(Node(left, right, data), path);
    var node: seq<Item<L, N>> := [NodeItem(data)];
    Associative(ItemsBefore(path), Items(left), node);
    Associative(ItemsBefore(path), Items(left) + node, Items(right));
    Associative(ItemsBefore(path) + Items(left) + node, Items(right), ItemsAfter(path));
  }

  /** A split puts the new leaf next to everything at the position, with an empty node value between,
      and keeps all that was there. */
  lemma SplitAddsTwo<L, N>(c: Cursor<L, N>, leaf: L)
    ensures Items(TreeOf(c)) == ItemsBefore(c.path) + Items(c.it) + ItemsAfter(c.path)
    ensures forall s :: (s == SplitLeafAndInsertRight(c, leaf) || s == SplitNodeAndInsertRight(c, leaf)) && s.Ok? ==>
      Items(TreeOf(s.value)) == ItemsBefore(c.path) + (Items(c.it) + [NodeItem(None), LeafItem(leaf)]) + ItemsAfter(c.path)
    ensures forall s :: (s == SplitLeafAndInsertLeft(c, leaf) || s == SplitNodeAndInsertLeft(c, leaf)) && s.Ok? ==>
      Items(TreeOf(s.value)) == ItemsBefore(c.path) + ([LeafItem(leaf), NodeItem(None)] + Items(c.it)) + ItemsAfter(c.path)
  {
    ItemsAround(c.it, c.path);
    ItemsAround(Node(c.it, Leaf(leaf), None), c.path);
    ItemsAround(Node(Leaf(leaf), c.it, None), c.path);
    assert Items(Node(c.it, Leaf(leaf), None)) == Items(c.it) + [NodeItem(None), LeafItem(leaf)];
    assert Items(Node(Leaf(leaf), c.it, None)) == [LeafItem(leaf), NodeItem(None)] + Items(c.it);
  }

  /** Splits of leaves work exactly on leaves, those of nodes exactly on nodes. */
  lemma SplitsWork<L, N>(c: Cursor<L, N>, leaf: L)
    ensures SplitLeafAndInsertLeft(c, leaf).Ok? <==> c.it.Leaf?
    ensures SplitLeafAndInsertRight(c, leaf).Ok? <==> c.it.Leaf?
    ensures SplitNodeAndInsertLeft(c, leaf).Ok? <==> c.it.Node?
    ensures SplitNodeAndInsertRight(c, leaf).Ok? <==> c.it.Node?
    ensures AssignTop(c, leaf).Ok? <==> TreeOf(c).Empty?
  {
    EmptyAround(c.it, c.path);
  }

  /** Unsplitting takes out the leaf and the value of its parent, which stand next to each other, and
      hands both back. */
  lemma UnsplitTakesTwo<L, N>(c: Cursor<L, N>) returns (before: seq<Item<L, N>>, after: seq<Item<L, N>>)
    requires UnsplitLeaf(c).Ok?
    ensures Items(TreeOf(UnsplitLeaf(c).value.cursor)) == before + after
    ensures var u := UnsplitLeaf(c).value;
            || Items(TreeOf(c)) == before + [LeafItem(u.leaf), NodeItem(u.data)] + after
            || Items(TreeOf(c)) == before + [NodeItem(u.data), LeafItem(u.leaf)] + after
    ensures GoUp(c).Ok? && (GoUp(c).value.it == Node(c.it, UnsplitLeaf(c).value.cursor.it, UnsplitLeaf(c).value.data)
                            || GoUp(c).value.it == Node(UnsplitLeaf(c).value.cursor.it, c.it, UnsplitLeaf(c).value.data))
  {
    ItemsAround(c.it, c.path);
    var u := UnsplitLeaf(c).value;
    ItemsAround(u.cursor.it, u.cursor.path);
    var up := u.cursor.path;
    var leaf: seq<Item<L, N>>, node: seq<Item<L, N>> := [LeafItem(u.leaf)], [NodeItem(u.data)];
    if c.path.Left? {
      before, after := ItemsBefore(up), Items(u.cursor.it) + ItemsAfter(up);
      assert leaf + node == [LeafItem(u.leaf), NodeItem(u.data)];
      Associative(ItemsBefore(up), Items(u.cursor.it), ItemsAfter(up));
      Associative(node, Items(u.cursor.it), ItemsAfter(up));
      Associative(before + leaf, node, after);
      Associative(before, leaf, node);
    } else {
      before, after := ItemsBefore(up) + Items(u.cursor.it), ItemsAfter(up);
      assert node + leaf == [NodeItem(u.data), LeafItem(u.leaf)];
      Associative(ItemsBefore(up), Items(u.cursor.it), node);
      Associative(before, node, leaf);
    }
  }

  // ----- arbitrary runs -----

  /** The items an operation brings in, and those it takes out. */
  function Gained<L, N>(c: Cursor<L, N>, op: Op<L, N>): seq<Item<L, N>> {
    match op
    case SetTop(leaf) => if AssignTop(c, leaf).Ok? then [LeafItem(leaf)] else []
    case SetNode(data) => if c.it.Node? then [NodeItem(data)] else []
    case InsertLeftOfNode(leaf) => if c.it.Node? then [LeafItem(leaf), NodeItem(None)] else []
    case InsertRightOfNode(leaf) => if c.it.Node? then [LeafItem(leaf), NodeItem(None)] else []
    case InsertLeftOfLeaf(leaf) => if c.it.Leaf? then [LeafItem(leaf), NodeItem(None)] else []
    case InsertRightOfLeaf(leaf) => if c.it.Leaf? then [LeafItem(leaf), NodeItem(None)] else []
    case _ => []
  }

  function Lost<L, N>(c: Cursor<L, N>, op: Op<L, N>): seq<Item<L, N>> {
    match op
    case SetNode(data) => if c.it.Node? then [NodeItem(c.it.data)] else []
    case RemoveLeaf =>
      match UnsplitLeaf(c) {
        case Ok(u) => [LeafItem(u.leaf), NodeItem(u.data)]
        case Err(_) => []
      }
    case _ => []
  }

  function AllGained<L, N>(c: Cursor<L, N>, ops: seq<Op<L, N>>): seq<Item<L, N>>
    decreases |ops|
  {
    if ops == [] then [] else Gained(c, ops[0]) + AllGained(Apply(c, ops[0]), ops[1..])
  }

  function AllLost<L, N>(c: Cursor<L, N>, ops: seq<Op<L, N>>): seq<Item<L, N>>
    decreases |ops|
  {
    if ops == [] then [] else Lost(c, ops[0]) + AllLost(Apply(c, ops[0]), ops[1..])
  }

  lemma Exchanged<T>(before: seq<T>, outs: seq<T>, ins: seq<T>, after: seq<T>)
    ensures Conserved(before + outs + after, ins, before + ins + after, outs)
  {
  }

  lemma Inserts<T>(before: seq<T>, here: seq<T>, after: seq<T>, x: T, y: T, here': seq<T>, whole: seq<T>, whole': seq<T>)
    requires whole == before + here + after && whole' == before + here' + after
    requires here' == here + [y, x] || here' == [x, y] + here
    ensures Conserved(whole, [x, y], whole', [])
  {
    assert multiset([x, y]) == multiset([y, x]);
    assert multiset(here') == multiset(here) + multiset([x, y]);
  }

  lemma TakesOut<T>(before: seq<T>, after: seq<T>, x: T, y: T)
    ensures Conserved(before + [x, y] + after, [], before + after, [x, y])
    ensures Conserved(before + [y, x] + after, [], before + after, [x, y])
  {
    assert multiset([x, y]) == multiset([y, x]);
  }

  /** A split, seen from the position that it replaces. */
  lemma Replaced<L, N>(it: Tree<L, N>, it': Tree<L, N>, path: Path<L, N>, leaf: L)
    requires Items(it') == Items(it) + [NodeItem(None), LeafItem(leaf)] || Items(it') == [LeafItem(leaf), NodeItem(None)] + Items(it)
    ensures Conserved(Items(Rebuilt(it, path)), [LeafItem(leaf), NodeItem(None)], Items(Rebuilt(it', path)), [])
  {
    ItemsAround(it, path);
    ItemsAround(it', path);
    Inserts(ItemsBefore(path), Items(it), ItemsAfter(path), LeafItem(leaf), NodeItem(None), Items(it'),
            Items(Rebuilt(it, path)), Items(Rebuilt(it', path)));
  }

  lemma SplitConserves<L, N>(c: Cursor<L, N>, op: Op<L, N>)
    requires op.InsertLeftOfNode? || op.InsertRightOfNode? || op.InsertLeftOfLeaf? || op.InsertRightOfLeaf?
    requires Gained(c, op) != []
    ensures Conserved(Items(TreeOf(c)), Gained(c, op), Items(TreeOf(Apply(c, op))), [])
  {
    if op.InsertLeftOfNode? || op.InsertLeftOfLeaf? {
      assert Apply(c, op) == Cursor(Node(Leaf(op.leaf), c.it, None), c.path);
      assert Items(Node(Leaf(op.leaf), c.it, None)) == [LeafItem(op.leaf), NodeItem(None)] + Items(c.it);
      Replaced(c.it, Node(Leaf(op.leaf), c.it, None), c.path, op.leaf);
    } else {
      assert Apply(c, op) == Cursor(Node(c.it, Leaf(op.leaf), None), c.path);
      assert Items(Node(c.it, Leaf(op.leaf), None)) == Items(c.it) + [NodeItem(None), LeafItem(op.leaf)];
      Replaced(c.it, Node(c.it, Leaf(op.leaf), None), c.path, op.leaf);
    }
  }

  lemma AssignConserves<L, N>(c: Cursor<L, N>, data: Option<N>)
    requires c.it.Node?
    ensures Conserved(Items(TreeOf(c)), [NodeItem(data)], Items(TreeOf(AssignNode(c, data).value)), [NodeItem(c.it.data)])
  {
    AssignNodeIs(c, data);
    Exchanged(ItemsBefore(c.path) + Items(c.it.left), [NodeItem(c.it.data)], [NodeItem(data)],
              Items(c.it.right) + ItemsAfter(c.path));
  }

  lemma UnsplitConserves<L, N>(c: Cursor<L, N>)
    requires UnsplitLeaf(c).Ok?
    ensures var u := UnsplitLeaf(c).value;
            Conserved(Items(TreeOf(c)), [], Items(TreeOf(u.cursor)), [LeafItem(u.leaf), NodeItem(u.data)])
  {
    var u := UnsplitLeaf(c).value;
    var before, after := UnsplitTakesTwo(c);
    TakesOut(before, after, LeafItem(u.leaf), NodeItem(u.data));
  }

  lemma FirstConserves<L, N>(c: Cursor<L, N>, leaf: L)
    requires AssignTop(c, leaf).Ok?
    ensures Conserved(Items(TreeOf(c)), [LeafItem(leaf)], Items(TreeOf(AssignTop(c, leaf).value)), [])
  {
  }

  lemma OpConserves<L, N>(c: Cursor<L, N>, op: Op<L, N>)
    ensures Conserved(Items(TreeOf(c)), Gained(c, op), Items(TreeOf(Apply(c, op))), Lost(c, op))
  {
    if Gained(c, op) == [] && Lost(c, op) == [] {
      assert TreeOf(Apply(c, op)) == TreeOf(c);
      NothingMoved(Items(TreeOf(c)));
    } else if op.SetNode? {
      AssignConserves(c, op.data);
    } else if op.RemoveLeaf? {
      UnsplitConserves(c);
    } else if op.SetTop? {
      FirstConserves(c, op.leaf);
    } else {
      SplitConserves(c, op);
    }
  }

  /** Over any run of moves and edits, the leaves and node values in the tree and those replaced or
      handed back are together those that were there and those put in. */
  lemma {:induction false} RunKeepsItems<L, N>(c: Cursor<L, N>, ops: seq<Op<L, N>>)
    ensures Conserved(Items(TreeOf(c)), AllGained(c, ops), Items(TreeOf(Run(c, ops))), AllLost(c, ops))
    decreases |ops|
  {
    if ops != [] {
      var d, later := Apply(c, ops[0]), ops[1..];
      OpConserves(c, ops[0]);
      RunKeepsItems(d, later);
      ConservedThen(Items(TreeOf(c)), Gained(c, ops[0]), Items(TreeOf(d)), Lost(c, ops[0]),
                    AllGained(d, later), Items(TreeOf(Run(d, later))), AllLost(d, later));
    }
  }
}
