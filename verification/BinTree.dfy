/** A binary tree and the zipper over it: moves and edits. */
module BinTree {

  import opened Sequences
  import opened Wrappers

  datatype Tree<L, N> = Empty | Node(left: Tree<L, N>, right: Tree<L, N>, data: Option<N>) | Leaf(value: L)

  /** From the current position back to the top. */
  datatype Path<L, N> =
    | Top
    | Left(right: Tree<L, N>, data: Option<N>, up: Path<L, N>)
    | Right(left: Tree<L, N>, data: Option<N>, up: Path<L, N>)

  datatype Cursor<L, N> = Cursor(it: Tree<L, N>, path: Path<L, N>)

  /** A move or an edit: the new cursor, or the unchanged one if it was not possible. */
  type Moved<L, N> = Result<Cursor<L, N>, Cursor<L, N>>

  /** The cursor a caller holds afterwards. */
  function Held<L, N>(m: Moved<L, N>): Cursor<L, N> {
    match m
    case Ok(c) => c
    case Err(c) => c
  }

  function NumLeaves<L, N>(t: Tree<L, N>): nat {
    match t
    case Empty => 0
    case Leaf(_) => 1
    case Node(left, right, _) => NumLeaves(left) + NumLeaves(right)
  }

  function AtTop<L, N>(t: Tree<L, N>): Cursor<L, N> {
    Cursor(t, Top)
  }

  // ----- moves -----

  function GoLeft<L, N>(c: Cursor<L, N>): Moved<L, N> {
    match c.it
    case Node(left, right, data) => Ok(Cursor(left, Left(right, data, c.path)))
    case _ => Err(c)
  }

  function GoRight<L, N>(c: Cursor<L, N>): Moved<L, N> {
    match c.it
    case Node(left, right, data) => Ok(Cursor(right, Right(left, data, c.path)))
    case _ => Err(c)
  }

  function GoUp<L, N>(c: Cursor<L, N>): Moved<L, N> {
    match c.path
    case Top => Err(c)
    case Right(left, data, up) => Ok(Cursor(Node(left, c.it, data), up))
    case Left(right, data, up) => Ok(Cursor(Node(c.it, right, data), up))
  }

  /** The whole tree around a position. */
  function Rebuilt<L, N>(it: Tree<L, N>, path: Path<L, N>): Tree<L, N>
    decreases path
  {
    match path
    case Top => it
    case Right(left, data, up) => Rebuilt(Node(left, it, data), up)
    case Left(right, data, up) => Rebuilt(Node(it, right, data), up)
  }

  function TreeOf<L, N>(c: Cursor<L, N>): Tree<L, N> {
    Rebuilt(c.it, c.path)
  }

  /** Climbs to the top and hands out the tree. */
  method IntoTree<L, N>(c: Cursor<L, N>) returns (t: Tree<L, N>)
    ensures t == TreeOf(c)
  {
    var self := c;
    while true
      invariant TreeOf(self) == TreeOf(c)
      decreases self.path
    {
      match GoUp(self) {
        case Ok(up) => self := up;
        case Err(top) => return top.it;
      }
    }
  }

  // ----- edits -----

  function AssignTop<L, N>(c: Cursor<L, N>, leaf: L): Moved<L, N> {
    if c.it.Empty? && c.path.Top? then Ok(Cursor(Leaf(leaf), c.path)) else Err(c)
  }

  function AssignNode<L, N>(c: Cursor<L, N>, data: Option<N>): Moved<L, N> {
    if c.it.Node? then Ok(c.(it := c.it.(data := data))) else Err(c)
  }

  function SplitNodeAndInsertLeft<L, N>(c: Cursor<L, N>, leaf: L): Moved<L, N> {
    if c.it.Node? then Ok(c.(it := Node(Leaf(leaf), c.it, None))) else Err(c)
  }

  function SplitNodeAndInsertRight<L, N>(c: Cursor<L, N>, leaf: L): Moved<L, N> {
    if c.it.Node? then Ok(c.(it := Node(c.it, Leaf(leaf), None))) else Err(c)
  }

  function SplitLeafAndInsertRight<L, N>(c: Cursor<L, N>, right: L): Moved<L, N> {
    if c.it.Leaf? then Ok(c.(it := Node(c.it, Leaf(right), None))) else Err(c)
  }

  function SplitLeafAndInsertLeft<L, N>(c: Cursor<L, N>, left: L): Moved<L, N> {
    if c.it.Leaf? then Ok(c.(it := Node(Leaf(left), c.it, None))) else Err(c)
  }

  datatype Unsplit<L, N> = Unsplit(cursor: Cursor<L, N>, leaf: L, data: Option<N>)

  /** Replaces the parent of a leaf by the other branch. */
  function UnsplitLeaf<L, N>(c: Cursor<L, N>): Result<Unsplit<L, N>, Cursor<L, N>> {
    match (c.it, c.path)
    case (Leaf(l), Left(right, data, up)) => Ok(Unsplit(Cursor(right, up), l, data))
    case (Leaf(l), Right(left, data, up)) => Ok(Unsplit(Cursor(left, up), l, data))
    case _ => Err(c)
  }

  // ----- leaf order -----

  function LeavesOf<L, N>(t: Tree<L, N>): (ls: seq<L>)
    ensures |ls| == NumLeaves(t)
  {
    match t
    case Empty => []
    case Leaf(l) => [l]
    case Node(left, right, _) => LeavesOf(left) + LeavesOf(right)
  }

  /** The leaves before and after a position. */
  function LeavesBefore<L, N>(path: Path<L, N>): seq<L> {
    match path
    case Top => []
    case Left(_, _, up) => LeavesBefore(up)
    case Right(left, _, up) => LeavesBefore(up) + LeavesOf(left)
  }

  function LeavesAfter<L, N>(path: Path<L, N>): seq<L> {
    match path
    case Top => []
    case Left(right, _, up) => LeavesOf(right) + LeavesAfter(up)
    case Right(_, _, up) => LeavesAfter(up)
  }

  /** The leaves of the whole tree, seen from a position. */
  lemma {:induction false} LeavesAround<L, N>(it: Tree<L, N>, path: Path<L, N>)
    ensures LeavesOf(Rebuilt(it, path)) == LeavesBefore(path) + LeavesOf(it) + LeavesAfter(path)
    decreases path
  {
    match path
    case Top =>
    case Right(left, data, up) =>
      LeavesAround(Node(left, it, data), up);
      Associative(LeavesBefore(up), LeavesOf(left), LeavesOf(it));
    case Left(right, data, up) =>
      LeavesAround(Node(it, right, data), up);
      Associative(LeavesBefore(up), LeavesOf(it), LeavesOf(right));
      Associative(LeavesBefore(up) + LeavesOf(it), LeavesOf(right), LeavesAfter(up));
  }

  // ----- proper trees -----

  /** Every node has two children and nothing is empty. */
  predicate Solid<L, N>(t: Tree<L, N>) {
    match t
    case Empty => false
    case Leaf(_) => true
    case Node(left, right, _) => Solid(left) && Solid(right)
  }

  /** The trees the crate promises: empty as a whole, or solid. */
  predicate Proper<L, N>(t: Tree<L, N>) {
    t.Empty? || Solid(t)
  }

  predicate SolidPath<L, N>(path: Path<L, N>) {
    match path
    case Top => true
    case Left(right, _, up) => Solid(right) && SolidPath(up)
    case Right(left, _, up) => Solid(left) && SolidPath(up)
  }

  lemma {:induction false} SolidAround<L, N>(it: Tree<L, N>, path: Path<L, N>)
    ensures Solid(Rebuilt(it, path)) <==> Solid(it) && SolidPath(path)
    decreases path
  {
    match path
    case Top =>
    case Right(left, data, up) => SolidAround(Node(left, it, data), up);
    case Left(right, data, up) => SolidAround(Node(it, right, data), up);
  }

  lemma {:induction false} EmptyAround<L, N>(it: Tree<L, N>, path: Path<L, N>)
    ensures Rebuilt(it, path).Empty? <==> it.Empty? && path.Top?
    decreases path
  {
    match path
    case Top =>
    case Right(left, data, up) => EmptyAround(Node(left, it, data), up);
    case Left(right, data, up) => EmptyAround(Node(it, right, data), up);
  }

  lemma ProperAround<L, N>(c: Cursor<L, N>)
    ensures Proper(TreeOf(c)) <==> (c.it.Empty? && c.path.Top?) || (Solid(c.it) && SolidPath(c.path))
  {
    SolidAround(c.it, c.path);
    EmptyAround(c.it, c.path);
  }

  // ----- laws of single operations -----

  /** Splitting, stepping to the new leaf and unsplitting restores the cursor and hands back the
      leaf. */
  lemma SplitThenUnsplit<L, N>(c: Cursor<L, N>, leaf: L)
    ensures var s := SplitLeafAndInsertRight(c, leaf);
            s.Ok? ==> UnsplitLeaf(Held(GoRight(s.value))) == Ok(Unsplit(c, leaf, None))
    ensures var s := SplitLeafAndInsertLeft(c, leaf);
            s.Ok? ==> UnsplitLeaf(Held(GoLeft(s.value))) == Ok(Unsplit(c, leaf, None))
    ensures var s := SplitNodeAndInsertRight(c, leaf);
            s.Ok? ==> UnsplitLeaf(Held(GoRight(s.value))) == Ok(Unsplit(c, leaf, None))
    ensures var s := SplitNodeAndInsertLeft(c, leaf);
            s.Ok? ==> UnsplitLeaf(Held(GoLeft(s.value))) == Ok(Unsplit(c, leaf, None))
  {
  }

  /** An inserted leaf comes right after, or right before, the leaves of the current position. */
  lemma SplitInsertsOne<L, N>(c: Cursor<L, N>, leaf: L)
    ensures LeavesOf(TreeOf(c)) == LeavesBefore(c.path) + LeavesOf(c.it) + LeavesAfter(c.path)
    ensures forall s :: (s == SplitLeafAndInsertRight(c, leaf) || s == SplitNodeAndInsertRight(c, leaf)) && s.Ok? ==>
      LeavesOf(TreeOf(s.value)) == LeavesBefore(c.path) + (LeavesOf(c.it) + [leaf]) + LeavesAfter(c.path)
    ensures forall s :: (s == SplitLeafAndInsertLeft(c, leaf) || s == SplitNodeAndInsertLeft(c, leaf)) && s.Ok? ==>
      LeavesOf(TreeOf(s.value)) == LeavesBefore(c.path) + ([leaf] + LeavesOf(c.it)) + LeavesAfter(c.path)
  {
    LeavesAround(c.it, c.path);
    LeavesAround(Node(c.it, Leaf(leaf), None), c.path);
    LeavesAround(Node(Leaf(leaf), c.it, None), c.path);
  }

  /** Unsplitting removes exactly the current leaf from the order and keeps the rest. */
  lemma UnsplitRemovesOne<L, N>(c: Cursor<L, N>)
    ensures UnsplitLeaf(c).Ok? <==> c.it.Leaf? && !c.path.Top?
    ensures UnsplitLeaf(c).Ok? ==>
      && UnsplitLeaf(c).value.leaf == c.it.value
      && LeavesOf(TreeOf(c)) == LeavesBefore(c.path) + [c.it.value] + LeavesAfter(c.path)
      && LeavesOf(TreeOf(UnsplitLeaf(c).value.cursor)) == LeavesBefore(c.path) + LeavesAfter(c.path)
  {
    LeavesAround(c.it, c.path);
    match (c.it, c.path)
    case (Leaf(l), Left(right, data, up)) =>
      LeavesAround(right, up);
      Associative(LeavesBefore(up), LeavesOf(right), LeavesAfter(up));
    case (Leaf(l), Right(left, data, up)) =>
      LeavesAround(left, up);
    case _ =>
  }

  // ----- arbitrary runs -----

  datatype Op<L, N> =
    | MoveLeft | MoveRight | MoveUp
    | SetTop(leaf: L)
    | SetNode(data: Option<N>)
    | InsertLeftOfNode(leaf: L) | InsertRightOfNode(leaf: L)
    | InsertLeftOfLeaf(leaf: L) | InsertRightOfLeaf(leaf: L)
    | RemoveLeaf

  function Apply<L, N>(c: Cursor<L, N>, op: Op<L, N>): Cursor<L, N> {
    match op
    case MoveLeft => Held(GoLeft(c))
    case MoveRight => Held(GoRight(c))
    case MoveUp => Held(GoUp(c))
    case SetTop(leaf) => Held(AssignTop(c, leaf))
    case SetNode(data) => Held(AssignNode(c, data))
    case InsertLeftOfNode(leaf) => Held(SplitNodeAndInsertLeft(c, leaf))
    case InsertRightOfNode(leaf) => Held(SplitNodeAndInsertRight(c, leaf))
    case InsertLeftOfLeaf(leaf) => Held(SplitLeafAndInsertLeft(c, leaf))
    case InsertRightOfLeaf(leaf) => Held(SplitLeafAndInsertRight(c, leaf))
    case RemoveLeaf =>
      match UnsplitLeaf(c)
      case Ok(u) => u.cursor
      case Err(same) => same
  }

  function Run<L, N>(c: Cursor<L, N>, ops: seq<Op<L, N>>): Cursor<L, N>
    decreases |ops|
  {
    if ops == [] then c else Run(Apply(c, ops[0]), ops[1..])
  }

  predicate IsMove<L, N>(op: Op<L, N>) {
    op.MoveLeft? || op.MoveRight? || op.MoveUp?
  }

  /** The leaf an operation brings into the tree, and the one it hands back. */
  function Inserted<L, N>(c: Cursor<L, N>, op: Op<L, N>): seq<L> {
    if op.SetTop? && AssignTop(c, op.leaf).Ok? then [op.leaf]
    else if (op.InsertLeftOfNode? || op.InsertRightOfNode?) && c.it.Node? then [op.leaf]
    else if (op.InsertLeftOfLeaf? || op.InsertRightOfLeaf?) && c.it.Leaf? then [op.leaf]
    else []
  }

  function Removed<L, N>(c: Cursor<L, N>, op: Op<L, N>): seq<L> {
    if op.RemoveLeaf? && UnsplitLeaf(c).Ok? then [c.it.value] else []
  }

  function AllInserted<L, N>(c: Cursor<L, N>, ops: seq<Op<L, N>>): seq<L>
    decreases |ops|
  {
    if ops == [] then [] else Inserted(c, ops[0]) + AllInserted(Apply(c, ops[0]), ops[1..])
  }

  function AllRemoved<L, N>(c: Cursor<L, N>, ops: seq<Op<L, N>>): seq<L>
    decreases |ops|
  {
    if ops == [] then [] else Removed(c, ops[0]) + AllRemoved(Apply(c, ops[0]), ops[1..])
  }

  /** Moves, possible or not, never change the tree. */
  lemma {:induction false} MovesKeepTree<L, N>(c: Cursor<L, N>, ops: seq<Op<L, N>>)
    requires forall op :: op in ops ==> IsMove(op)
    ensures TreeOf(Run(c, ops)) == TreeOf(c)
    decreases |ops|
  {
    if ops != [] {
      assert ops[0] in ops;
      assert TreeOf(Apply(c, ops[0])) == TreeOf(c);
      MovesKeepTree(Apply(c, ops[0]), ops[1..]);
    }
  }

  lemma OpKeepsProper<L, N>(c: Cursor<L, N>, op: Op<L, N>)
    requires Proper(TreeOf(c))
    ensures Proper(TreeOf(Apply(c, op)))
  {
    ProperAround(c);
    ProperAround(Apply(c, op));
  }

  /** No run of moves and edits leads from a proper tree to an improper one. */
  lemma {:induction false} RunKeepsProper<L, N>(c: Cursor<L, N>, ops: seq<Op<L, N>>)
    requires Proper(TreeOf(c))
    ensures Proper(TreeOf(Run(c, ops)))
    decreases |ops|
  {
    if ops != [] {
      OpKeepsProper(c, ops[0]);
      RunKeepsProper(Apply(c, ops[0]), ops[1..]);
    }
  }

  lemma InsertOne<L>(before: seq<L>, here: seq<L>, after: seq<L>, leaf: L)
    ensures multiset(before + (here + [leaf]) + after) == multiset(before + here + after) + multiset([leaf])
    ensures multiset(before + ([leaf] + here) + after) == multiset(before + here + after) + multiset([leaf])
  {
  }

  lemma InsertRightKeeps<L, N>(it: Tree<L, N>, path: Path<L, N>, leaf: L)
    ensures multiset(LeavesOf(Rebuilt(Node(it, Leaf(leaf), None), path)))
         == multiset(LeavesOf(Rebuilt(it, path))) + multiset([leaf])
  {
    LeavesAround(it, path);
    LeavesAround(Node(it, Leaf(leaf), None), path);
    InsertOne(LeavesBefore(path), LeavesOf(it), LeavesAfter(path), leaf);
  }

  lemma InsertLeftKeeps<L, N>(it: Tree<L, N>, path: Path<L, N>, leaf: L)
    ensures multiset(LeavesOf(Rebuilt(Node(Leaf(leaf), it, None), path)))
         == multiset(LeavesOf(Rebuilt(it, path))) + multiset([leaf])
  {
    LeavesAround(it, path);
    LeavesAround(Node(Leaf(leaf), it, None), path);
    InsertOne(LeavesBefore(path), LeavesOf(it), LeavesAfter(path), leaf);
  }

  lemma InsertKeepsLeaves<L, N>(c: Cursor<L, N>, op: Op<L, N>)
    requires op.InsertLeftOfNode? || op.InsertRightOfNode? || op.InsertLeftOfLeaf? || op.InsertRightOfLeaf?
    requires Inserted(c, op) == [op.leaf]
    ensures multiset(LeavesOf(TreeOf(Apply(c, op)))) == multiset(LeavesOf(TreeOf(c))) + multiset([op.leaf])
  {
    if op.InsertLeftOfNode? || op.InsertLeftOfLeaf? {
      assert Apply(c, op) == Cursor(Node(Leaf(op.leaf), c.it, None), c.path);
      InsertLeftKeeps(c.it, c.path, op.leaf);
    } else {
      assert Apply(c, op) == Cursor(Node(c.it, Leaf(op.leaf), None), c.path);
      InsertRightKeeps(c.it, c.path, op.leaf);
    }
  }

  lemma RemoveOne<L>(before: seq<L>, after: seq<L>, leaf: L)
    ensures multiset(before + [leaf] + after) == multiset(before + after) + multiset([leaf])
  {
  }

  lemma RemoveKeepsLeaves<L, N>(c: Cursor<L, N>)
    requires UnsplitLeaf(c).Ok?
    ensures multiset(LeavesOf(TreeOf(UnsplitLeaf(c).value.cursor))) + multiset([c.it.value])
         == multiset(LeavesOf(TreeOf(c)))
  {
    UnsplitRemovesOne(c);
    RemoveOne(LeavesBefore(c.path), LeavesAfter(c.path), c.it.value);
  }

  lemma OthersKeepLeaves<L, N>(c: Cursor<L, N>, op: Op<L, N>)
    requires Inserted(c, op) == [] && Removed(c, op) == []
    ensures LeavesOf(TreeOf(Apply(c, op))) == LeavesOf(TreeOf(c))
  {
    if op.SetNode? && c.it.Node? {
      LeavesAround(c.it, c.path);
      LeavesAround(c.it.(data := op.data), c.path);
    }
  }

  lemma FirstLeaf<L, N>(c: Cursor<L, N>, leaf: L)
    requires AssignTop(c, leaf).Ok?
    ensures LeavesOf(TreeOf(c)) == [] && LeavesOf(TreeOf(AssignTop(c, leaf).value)) == [leaf]
  {
  }

  ghost predicate Conserved<L>(before: seq<L>, ins: seq<L>, after: seq<L>, outs: seq<L>) {
    multiset(after) + multiset(outs) == multiset(before) + multiset(ins)
  }

  lemma NothingMoved<L>(ls: seq<L>)
    ensures Conserved(ls, [], ls, [])
  {
  }

  lemma OnlyInserted<L>(before: seq<L>, after: seq<L>, leaf: L)
    requires multiset(after) == multiset(before) + multiset([leaf])
    ensures Conserved(before, [leaf], after, [])
  {
  }

  lemma OnlyRemoved<L>(before: seq<L>, after: seq<L>, leaf: L)
    requires multiset(after) + multiset([leaf]) == multiset(before)
    ensures Conserved(before, [], after, [leaf])
  {
  }

  lemma OpInserts<L, N>(c: Cursor<L, N>, op: Op<L, N>, after: seq<L>)
    requires Inserted(c, op) != [] && after == LeavesOf(TreeOf(Apply(c, op)))
    ensures Inserted(c, op) == [op.leaf] && multiset(after) == multiset(LeavesOf(TreeOf(c))) + multiset([op.leaf])
  {
    if op.SetTop? {
      FirstLeaf(c, op.leaf);
    } else {
      InsertKeepsLeaves(c, op);
    }
  }

  lemma OpKeepsLeaves<L, N>(c: Cursor<L, N>, op: Op<L, N>)
    ensures Conserved(LeavesOf(TreeOf(c)), Inserted(c, op), LeavesOf(TreeOf(Apply(c, op))), Removed(c, op))
  {
    var before, after := LeavesOf(TreeOf(c)), LeavesOf(TreeOf(Apply(c, op)));
    if Inserted(c, op) != [] {
      OpInserts(c, op, after);
      OnlyInserted(before, after, op.leaf);
    } else if Removed(c, op) != [] {
      RemoveKeepsLeaves(c);
      OnlyRemoved(before, after, c.it.value);
    } else {
      OthersKeepLeaves(c, op);
      NothingMoved(before);
    }
  }

  lemma ConservedThen<L>(before: seq<L>, ins: seq<L>, middle: seq<L>, outs: seq<L>,
                         ins': seq<L>, after: seq<L>, outs': seq<L>)
    requires Conserved(before, ins, middle, outs) && Conserved(middle, ins', after, outs')
    ensures Conserved(before, ins + ins', after, outs + outs')
  {
    var a, o, o', m, i', b, i := multiset(after), multiset(outs), multiset(outs'), multiset(middle),
                                 multiset(ins'), multiset(before), multiset(ins);
    calc {
      a + multiset(outs + outs');
    ==
      (a + o') + o;
    ==
      (m + o) + i';
    ==
      b + multiset(ins + ins');
    }
  }

  /** Leaves are conserved: over any run, those in the tree and those handed back are together
      those that were there and those inserted. */
  lemma {:induction false} RunKeepsLeaves<L, N>(c: Cursor<L, N>, ops: seq<Op<L, N>>)
    ensures Conserved(LeavesOf(TreeOf(c)), AllInserted(c, ops), LeavesOf(TreeOf(Run(c, ops))), AllRemoved(c, ops))
    decreases |ops|
  {
    if ops != [] {
      var d, later := Apply(c, ops[0]), ops[1..];
      OpKeepsLeaves(c, ops[0]);
      RunKeepsLeaves(d, later);
      ConservedThen(LeavesOf(TreeOf(c)), Inserted(c, ops[0]), LeavesOf(TreeOf(d)), Removed(c, ops[0]),
                    AllInserted(d, later), LeavesOf(TreeOf(Run(d, later))), AllRemoved(d, later));
    }
  }
}
