/** Walking a tree with the zipper: preorder_next, postorder_next and go_to_nth_leaf. */
module Traversal {

  import opened Sequences
  import opened Wrappers
  import opened BinTree

  // ----- the specification: lists of positions -----

  function LeftChild<L, N>(c: Cursor<L, N>): Cursor<L, N>
    requires c.it.Node?
  {
    GoLeft(c).value
  }

  function RightChild<L, N>(c: Cursor<L, N>): Cursor<L, N>
    requires c.it.Node?
  {
    GoRight(c).value
  }

  /** All positions at or below a cursor in preorder: a node, its left side, its right side. */
  function Walk<L, N>(c: Cursor<L, N>): (cs: seq<Cursor<L, N>>)
    ensures cs != [] && cs[0] == c
    decreases c.it
  {
    match c.it
    case Node(_, _, _) => [c] + Walk(LeftChild(c)) + Walk(RightChild(c))
    case _ => [c]
  }

  /** The positions after everything below a cursor. */
  function Following<L, N>(c: Cursor<L, N>): seq<Cursor<L, N>>
    decreases c.path
  {
    match c.path
    case Top => []
    case Left(right, data, up) => Walk(Cursor(right, Right(c.it, data, up))) + Following(GoUp(c).value)
    case Right(_, _, _) => Following(GoUp(c).value)
  }

  /** The positions after a cursor. */
  function After<L, N>(c: Cursor<L, N>): seq<Cursor<L, N>> {
    Walk(c)[1..] + Following(c)
  }

  // ----- one step -----

  /** From a position with nothing below it: the right sibling of the nearest left child on the
      way up, or the top. */
  function Ascend<L, N>(c: Cursor<L, N>): Moved<L, N>
    decreases c.path
  {
    match c.path
    case Top => Err(c)
    case Left(_, _, _) => GoRight(GoUp(c).value)
    case Right(_, _, _) => Ascend(GoUp(c).value)
  }

  function Next<L, N>(c: Cursor<L, N>): Moved<L, N> {
    if c.it.Leaf? then Ascend(c) else GoLeft(c)
  }

  lemma AfterParts<L, N>(c: Cursor<L, N>)
    requires c.it.Node?
    ensures After(c) == Walk(LeftChild(c)) + (Walk(RightChild(c)) + Following(c))
    ensures After(LeftChild(c)) == Walk(LeftChild(c))[1..] + (Walk(RightChild(c)) + Following(c))
  {
    assert Walk(c)[1..] == Walk(LeftChild(c)) + Walk(RightChild(c));
    Associative(Walk(LeftChild(c)), Walk(RightChild(c)), Following(c));
  }

  lemma {:induction false} AscendIsNext<L, N>(c: Cursor<L, N>)
    ensures Following(c) == [] ==> Ascend(c) == Err(AtTop(TreeOf(c)))
    ensures Following(c) != [] ==>
      Ascend(c) == Ok(Following(c)[0]) && After(Following(c)[0]) == Following(c)[1..]
    decreases c.path
  {
    match c.path
    case Top =>
    case Left(right, data, up) =>
      var sibling := Cursor(right, Right(c.it, data, up));
      assert Following(sibling) == Following(GoUp(c).value);
    case Right(_, _, _) => AscendIsNext(GoUp(c).value);
  }

  /** A step leads to the next position in preorder; after the last it leaves the cursor at the
      top with the whole tree. Only an empty position, which a proper tree has at most at its top,
      stops a step. */
  lemma StepIsNext<L, N>(c: Cursor<L, N>)
    ensures c.it.Empty? ==> Next(c) == Err(c)
    ensures !c.it.Empty? && After(c) == [] ==> Next(c) == Err(AtTop(TreeOf(c)))
    ensures !c.it.Empty? && After(c) != [] ==> Next(c) == Ok(After(c)[0]) && After(After(c)[0]) == After(c)[1..]
  {
    if c.it.Leaf? {
      AscendIsNext(c);
      assert Walk(c)[1..] == [];
      assert After(c) == Following(c);
    } else if c.it.Node? {
      AfterParts(c);
    }
  }

  method PreorderNext<L, N>(c: Cursor<L, N>) returns (r: Moved<L, N>)
    ensures r == Next(c)
    ensures c.it.Empty? ==> r == Err(c)
    ensures !c.it.Empty? && After(c) == [] ==> r == Err(AtTop(TreeOf(c)))
    ensures !c.it.Empty? && After(c) != [] ==> r == Ok(After(c)[0])
  {
    StepIsNext(c);
    var self := c;
    if self.it.Leaf? {
      if self.path.Left? {
        return GoRight(GoUp(self).value);
      }
      while true
        invariant !self.path.Left? && Ascend(self) == Ascend(c)
        decreases self.path
      {
        match GoUp(self) {
          case Err(top) => return Err(top);
          case Ok(up) => self := up;
        }
        if self.path.Top? {
          return Err(self);
        }
        if self.path.Left? {
          return GoRight(GoUp(self).value);
        }
      }
    } else {
      return GoLeft(self);
    }
  }

  // ----- whole walks -----

  lemma {:induction false} WalkKeepsTree<L, N>(c: Cursor<L, N>)
    ensures forall d :: d in Walk(c) ==> TreeOf(d) == TreeOf(c)
    decreases c.it
  {
    if c.it.Node? {
      WalkKeepsTree(LeftChild(c));
      WalkKeepsTree(RightChild(c));
    }
  }

  lemma {:induction false} WalkHasChildren<L, N>(c: Cursor<L, N>, d: Cursor<L, N>)
    requires d in Walk(c) && d.it.Node?
    ensures LeftChild(d) in Walk(c) && RightChild(d) in Walk(c)
    decreases c.it
  {
    if c.it.Node? {
      if d in Walk(LeftChild(c)) {
        WalkHasChildren(LeftChild(c), d);
      } else if d in Walk(RightChild(c)) {
        WalkHasChildren(RightChild(c), d);
      } else {
        assert Walk(LeftChild(c))[0] in Walk(c) && Walk(RightChild(c))[0] in Walk(c);
      }
    }
  }

  /** Every position of a tree is in the walk from its top. */
  lemma {:induction false} WalkReaches<L, N>(d: Cursor<L, N>)
    ensures d in Walk(AtTop(TreeOf(d)))
    decreases d.path
  {
    if d.path.Top? {
      assert Walk(d)[0] == d;
    } else {
      var up := GoUp(d).value;
      WalkReaches(up);
      WalkHasChildren(AtTop(TreeOf(d)), up);
    }
  }

  /** Where a position is: the turns from the top, true for right. */
  function Turns<L, N>(path: Path<L, N>): seq<bool> {
    match path
    case Top => []
    case Left(_, _, up) => Turns(up) + [false]
    case Right(_, _, up) => Turns(up) + [true]
  }

  lemma {:induction false} WalkStaysBelow<L, N>(c: Cursor<L, N>)
    ensures forall d :: d in Walk(c) ==> Turns(c.path) <= Turns(d.path)
    decreases c.it
  {
    if c.it.Node? {
      WalkStaysBelow(LeftChild(c));
      WalkStaysBelow(RightChild(c));
    }
  }

  predicate Distinct<L(==), N(==)>(cs: seq<Cursor<L, N>>) {
    forall i, j :: 0 <= i < j < |cs| ==> cs[i] != cs[j]
  }

  lemma DistinctJoin<L, N>(cs: seq<Cursor<L, N>>, ds: seq<Cursor<L, N>>)
    requires Distinct(cs) && Distinct(ds) && forall c :: c in cs ==> c !in ds
    ensures Distinct(cs + ds)
  {
    var all := cs + ds;
    forall i, j | 0 <= i < j < |all|
      ensures all[i] != all[j]
    {
      if i < |cs| <= j {
        assert cs[i] in cs && ds[j - |cs|] in ds;
      }
    }
  }

  lemma {:induction false} WalkIsDistinct<L, N>(c: Cursor<L, N>)
    ensures Distinct(Walk(c))
    decreases c.it
  {
    if c.it.Node? {
      var l, r := LeftChild(c), RightChild(c);
      WalkIsDistinct(l);
      WalkIsDistinct(r);
      WalkStaysBelow(l);
      WalkStaysBelow(r);
      var n := |Turns(c.path)|;
      assert Turns(l.path)[n] == false && Turns(r.path)[n] == true;
      forall d | d in Walk(l)
        ensures |Turns(d.path)| > n && !Turns(d.path)[n]
      {
        assert Turns(d.path)[n] == Turns(l.path)[n];
      }
      forall d | d in Walk(r)
        ensures |Turns(d.path)| > n && Turns(d.path)[n]
      {
        assert Turns(d.path)[n] == Turns(r.path)[n];
      }
      DistinctJoin([c], Walk(l));
      DistinctJoin([c] + Walk(l), Walk(r));
    }
  }

  /** The walk from the top is a list of all positions of the tree, each once. */
  lemma WalkIsAll<L, N>(t: Tree<L, N>)
    ensures forall d :: d in Walk(AtTop(t)) <==> TreeOf(d) == t
    ensures Distinct(Walk(AtTop(t)))
  {
    WalkKeepsTree(AtTop(t));
    forall d: Cursor<L, N> | TreeOf(d) == t
      ensures d in Walk(AtTop(t))
    {
      WalkReaches(d);
    }
    WalkIsDistinct(AtTop(t));
  }

  lemma NextKeepsTree<L, N>(c: Cursor<L, N>)
    ensures TreeOf(Held(Next(c))) == TreeOf(c)
  {
    if c.it.Leaf? {
      AscendKeepsTree(c);
    }
  }

  lemma {:induction false} AscendKeepsTree<L, N>(c: Cursor<L, N>)
    ensures TreeOf(Held(Ascend(c))) == TreeOf(c)
    decreases c.path
  {
    if c.path.Right? {
      AscendKeepsTree(GoUp(c).value);
    }
  }

  /** In a proper tree only the end of the walk stops a step, and then the cursor is at the top. */
  lemma ProperStep<L, N>(c: Cursor<L, N>)
    requires Proper(TreeOf(c))
    ensures Next(c) == if After(c) == [] then Err(AtTop(TreeOf(c))) else Ok(After(c)[0])
  {
    ProperAround(c);
    StepIsNext(c);
    if c.it.Empty? {
      assert Walk(c)[1..] == [] && c == AtTop(TreeOf(c));
    }
  }

  /** One more position visited. */
  lemma VisitNext<L, N>(c: Cursor<L, N>, visited: seq<Cursor<L, N>>)
    requires Proper(TreeOf(c)) && Next(c).Ok?
    ensures visited + After(c) == (visited + [Next(c).value]) + After(Next(c).value)
    ensures TreeOf(Next(c).value) == TreeOf(c) && |After(Next(c).value)| < |After(c)|
  {
    ProperStep(c);
    ProperAround(c);
    StepIsNext(c);
    NextKeepsTree(c);
    var next := Next(c).value;
    assert After(c) == [next] + After(next);
  }

  /** Iterates as callers do, until a step fails. */
  method VisitAll<L, N>(t: Tree<L, N>) returns (visited: seq<Cursor<L, N>>, last: Cursor<L, N>)
    requires Proper(t)
    ensures visited == Walk(AtTop(t)) && last == AtTop(t)
    ensures forall d :: d in visited <==> TreeOf(d) == t
    ensures Distinct(visited)
  {
    last, visited := AtTop(t), [AtTop(t)];
    assert After(last) == Walk(last)[1..];
    while true
      invariant TreeOf(last) == t && visited + After(last) == Walk(AtTop(t))
      decreases |After(last)|
    {
      ProperStep(last);
      var step := PreorderNext(last);
      match step {
        case Err(top) =>
          WalkIsAll(t);
          return visited, top;
        case Ok(next) =>
          VisitNext(last, visited);
          last, visited := next, visited + [next];
      }
    }
  }

  // ----- leaves -----

  function LeafPositions<L, N>(cs: seq<Cursor<L, N>>): (ls: seq<Cursor<L, N>>)
    ensures forall c :: c in ls ==> c.it.Leaf?
  {
    if cs == [] then []
    else (if cs[0].it.Leaf? then [cs[0]] else []) + LeafPositions(cs[1..])
  }

  lemma {:induction false} LeafPositionsJoin<L, N>(cs: seq<Cursor<L, N>>, ds: seq<Cursor<L, N>>)
    ensures LeafPositions(cs + ds) == LeafPositions(cs) + LeafPositions(ds)
  {
    if cs == [] {
      assert cs + ds == ds;
    } else {
      assert (cs + ds)[1..] == cs[1..] + ds;
      LeafPositionsJoin(cs[1..], ds);
    }
  }

  /** The leaves met on a walk are those of the tree, left to right. */
  lemma {:induction false} WalkMeetsLeaves<L, N>(c: Cursor<L, N>)
    ensures var ls := LeafPositions(Walk(c));
      && |ls| == NumLeaves(c.it)
      && forall i :: 0 <= i < |ls| ==> ls[i].it.value == LeavesOf(c.it)[i]
    decreases c.it
  {
    if c.it.Node? {
      var l, r := LeftChild(c), RightChild(c);
      WalkMeetsLeaves(l);
      WalkMeetsLeaves(r);
      LeafPositionsJoin([c] + Walk(l), Walk(r));
      LeafPositionsJoin([c], Walk(l));
    }
  }

  /** The leaves at or after a position. */
  function LeavesAhead<L, N>(c: Cursor<L, N>): seq<Cursor<L, N>> {
    LeafPositions([c] + After(c))
  }

  lemma LeavesAheadStep<L, N>(c: Cursor<L, N>)
    ensures After(c) == [] ==> LeavesAhead(c) == if c.it.Leaf? then [c] else []
    ensures After(c) != [] && After(After(c)[0]) == After(c)[1..] ==>
      LeavesAhead(c) == (if c.it.Leaf? then [c] else []) + LeavesAhead(After(c)[0])
  {
    LeafPositionsJoin([c], After(c));
    assert [c][1..] == [];
    if After(c) != [] {
      assert After(c) == [After(c)[0]] + After(c)[1..];
    }
  }

  /** The n-th leaf at or after a position, or the top if there are not so many. */
  function NthOutcome<L, N>(c: Cursor<L, N>, n: nat): Moved<L, N> {
    if n < |LeavesAhead(c)| then Ok(LeavesAhead(c)[n]) else Err(AtTop(TreeOf(c)))
  }

  lemma NthStep<L, N>(c: Cursor<L, N>, n: nat)
    requires Proper(TreeOf(c))
    ensures c.it.Leaf? && n == 0 ==> NthOutcome(c, n) == Ok(c)
    ensures c.it.Leaf? && n > 0 ==>
      NthOutcome(c, n) == if Next(c).Ok? then NthOutcome(Next(c).value, n - 1) else Err(Next(c).error)
    ensures !c.it.Leaf? ==>
      NthOutcome(c, n) == if Next(c).Ok? then NthOutcome(Next(c).value, n) else Err(Next(c).error)
  {
    ProperStep(c);
    StepIsNext(c);
    LeavesAheadStep(c);
    NextKeepsTree(c);
    ProperAround(c);
  }

  lemma NthFromTop<L, N>(t: Tree<L, N>, n: nat)
    ensures NthOutcome(AtTop(t), n).Ok? <==> n < NumLeaves(t)
    ensures n < NumLeaves(t) ==> NthOutcome(AtTop(t), n).value.it == Leaf(LeavesOf(t)[n])
  {
    var c := AtTop(t);
    WalkMeetsLeaves(c);
    assert [c] + After(c) == Walk(c);
  }

  /** Moves to the n-th leaf at or after the current position, if there are so many. */
  method GoToNthLeaf<L, N>(c: Cursor<L, N>, n: nat) returns (r: Moved<L, N>)
    ensures TreeOf(Held(r)) == TreeOf(c)
    ensures Proper(TreeOf(c)) ==> r == NthOutcome(c, n)
    ensures Proper(c.it) && c.path.Top? ==>
      && (r.Ok? <==> n < NumLeaves(c.it))
      && (r.Ok? ==> r.value.it == Leaf(LeavesOf(c.it)[n]))
  {
    if c.path.Top? {
      NthFromTop(c.it, n);
    }
    ghost var proper := Proper(TreeOf(c));
    var self, next := c, 0;
    while true
      invariant TreeOf(self) == TreeOf(c) && next <= n
      invariant proper ==> NthOutcome(self, n - next) == NthOutcome(c, n)
      decreases |After(self)|
    {
      if proper {
        NthStep(self, n - next);
      }
      if self.it.Leaf? {
        if next == n {
          return Ok(self);
        }
        next := next + 1;
      }
      StepIsNext(self);
      NextKeepsTree(self);
      var step := PreorderNext(self);
      match step {
        case Err(stuck) => return Err(stuck);
        case Ok(further) => self := further;
      }
    }
  }

  // ----- the other direction -----

  function MirrorTree<L, N>(t: Tree<L, N>): Tree<L, N> {
    match t
    case Node(left, right, data) => Node(MirrorTree(right), MirrorTree(left), data)
    case _ => t
  }

  function MirrorPath<L, N>(path: Path<L, N>): Path<L, N> {
    match path
    case Top => Top
    case Left(right, data, up) => Right(MirrorTree(right), data, MirrorPath(up))
    case Right(left, data, up) => Left(MirrorTree(left), data, MirrorPath(up))
  }

  function Mirror<L, N>(c: Cursor<L, N>): Cursor<L, N> {
    Cursor(MirrorTree(c.it), MirrorPath(c.path))
  }

  function MirrorAll<L, N>(cs: seq<Cursor<L, N>>): (ds: seq<Cursor<L, N>>)
    ensures |ds| == |cs|
    ensures forall i :: 0 <= i < |ds| ==> ds[i] == Mirror(cs[i])
  {
    seq(|cs|, i requires 0 <= i < |cs| => Mirror(cs[i]))
  }

  lemma {:induction false} MirrorTreeTwice<L, N>(t: Tree<L, N>)
    ensures MirrorTree(MirrorTree(t)) == t
  {
    match t
    case Node(left, right, _) =>
      MirrorTreeTwice(left);
      MirrorTreeTwice(right);
    case _ =>
  }

  lemma {:induction false} MirrorPathTwice<L, N>(path: Path<L, N>)
    ensures MirrorPath(MirrorPath(path)) == path
  {
    match path
    case Top =>
    case Left(right, _, up) =>
      MirrorTreeTwice(right);
      MirrorPathTwice(up);
    case Right(left, _, up) =>
      MirrorTreeTwice(left);
      MirrorPathTwice(up);
  }

  lemma MirrorTwice<L, N>(c: Cursor<L, N>)
    ensures Mirror(Mirror(c)) == c
  {
    MirrorTreeTwice(c.it);
    MirrorPathTwice(c.path);
  }

  lemma {:induction false} MirrorSolid<L, N>(t: Tree<L, N>)
    ensures Solid(MirrorTree(t)) == Solid(t)
  {
    match t
    case Node(left, right, _) =>
      MirrorSolid(left);
      MirrorSolid(right);
    case _ =>
  }

  function MirrorMoved<L, N>(m: Moved<L, N>): Moved<L, N> {
    match m
    case Ok(c) => Ok(Mirror(c))
    case Err(c) => Err(Mirror(c))
  }

  function AscendBack<L, N>(c: Cursor<L, N>): Moved<L, N>
    decreases c.path
  {
    match c.path
    case Top => Err(c)
    case Right(_, _, _) => GoLeft(GoUp(c).value)
    case Left(_, _, _) => AscendBack(GoUp(c).value)
  }

  function PostNext<L, N>(c: Cursor<L, N>): Moved<L, N> {
    if c.it.Leaf? then AscendBack(c) else GoRight(c)
  }

  lemma {:induction false} AscendBackMirrors<L, N>(c: Cursor<L, N>)
    ensures AscendBack(c) == MirrorMoved(Ascend(Mirror(c)))
    decreases c.path
  {
    MirrorTwice(c);
    match c.path
    case Top =>
    case Left(_, _, _) =>
      assert GoUp(Mirror(c)).value == Mirror(GoUp(c).value);
      AscendBackMirrors(GoUp(c).value);
    case Right(left, data, up) =>
      MirrorTwice(GoLeft(GoUp(c).value).value);
  }

  /** The step of postorder_next is that of preorder_next in the mirror. */
  lemma PostNextMirrors<L, N>(c: Cursor<L, N>)
    ensures PostNext(c) == MirrorMoved(Next(Mirror(c)))
  {
    MirrorTwice(c);
    if c.it.Leaf? {
      AscendBackMirrors(c);
    } else if c.it.Node? {
      MirrorTwice(RightChild(c));
      assert Mirror(RightChild(c)) == LeftChild(Mirror(c));
    }
  }

  method PostorderNext<L, N>(c: Cursor<L, N>) returns (r: Moved<L, N>)
    ensures r == PostNext(c)
    ensures r == MirrorMoved(Next(Mirror(c)))
  {
    PostNextMirrors(c);
    var self := c;
    if self.it.Leaf? {
      if self.path.Right? {
        return GoLeft(GoUp(self).value);
      }
      while true
        invariant !self.path.Right? && AscendBack(self) == AscendBack(c)
        decreases self.path
      {
        match GoUp(self) {
          case Err(top) => return Err(top);
          case Ok(up) => self := up;
        }
        if self.path.Top? {
          return Err(self);
        }
        if self.path.Right? {
          return GoLeft(GoUp(self).value);
        }
      }
    } else {
      return GoRight(self);
    }
  }

  /** All positions at or below a cursor in postorder: the left side, the right side, the node. */
  function PostOrder<L, N>(c: Cursor<L, N>): (cs: seq<Cursor<L, N>>)
    ensures cs != [] && cs[|cs| - 1] == c
    decreases c.it
  {
    match c.it
    case Node(_, _, _) => PostOrder(LeftChild(c)) + PostOrder(RightChild(c)) + [c]
    case _ => [c]
  }

  function Backwards<T>(s: seq<T>): (r: seq<T>)
    ensures |r| == |s|
    ensures forall i :: 0 <= i < |s| ==> r[i] == s[|s| - 1 - i]
  {
    if s == [] then [] else Backwards(s[1..]) + [s[0]]
  }

  lemma BackwardsJoin<T>(a: seq<T>, b: seq<T>, c: T)
    ensures Backwards(a + b + [c]) == [c] + Backwards(b) + Backwards(a)
  {
  }

  lemma MirrorAllJoin<L, N>(c: Cursor<L, N>, a: seq<Cursor<L, N>>, b: seq<Cursor<L, N>>)
    ensures MirrorAll([c] + a + b) == [Mirror(c)] + MirrorAll(a) + MirrorAll(b)
  {
  }

  /** The walk in the mirror is the postorder, read backwards. */
  lemma {:induction false} MirrorWalk<L, N>(c: Cursor<L, N>)
    ensures MirrorAll(Walk(Mirror(c))) == Backwards(PostOrder(c))
    decreases c.it
  {
    MirrorTwice(c);
    if c.it.Node? {
      var l, r := LeftChild(c), RightChild(c);
      MirrorWalk(l);
      MirrorWalk(r);
      assert LeftChild(Mirror(c)) == Mirror(r) && RightChild(Mirror(c)) == Mirror(l);
      BackwardsJoin(PostOrder(l), PostOrder(r), c);
      MirrorAllJoin(Mirror(c), Walk(Mirror(r)), Walk(Mirror(l)));
    } else {
      assert Walk(Mirror(c)) == [Mirror(c)];
      assert Backwards([c]) == [c];
    }
  }

  /** A step of postorder_next, seen in the mirror. */
  lemma BackStep<L, N>(c: Cursor<L, N>, m: Cursor<L, N>)
    requires m == Mirror(c) && Proper(TreeOf(m))
    ensures c == Mirror(m)
    ensures After(m) == [] ==> PostNext(c) == Err(Mirror(AtTop(TreeOf(m))))
    ensures After(m) != [] ==>
      var n := After(m)[0];
      && PostNext(c) == Ok(Mirror(n)) && Mirror(Mirror(n)) == n
      && TreeOf(n) == TreeOf(m) && After(m) == [n] + After(n)
  {
    MirrorTwice(c);
    PostNextMirrors(c);
    ProperStep(m);
    StepIsNext(m);
    NextKeepsTree(m);
    if After(m) != [] {
      MirrorTwice(After(m)[0]);
      assert After(m) == [After(m)[0]] + After(m)[1..];
    }
  }

  /** Iterates postorder_next until it fails: the positions come in the reverse of postorder, and
      the cursor ends at the top with the whole tree. */
  method VisitAllBack<L, N>(t: Tree<L, N>) returns (visited: seq<Cursor<L, N>>, last: Cursor<L, N>)
    requires Proper(t)
    ensures visited == Backwards(PostOrder(AtTop(t))) && last == AtTop(t)
  {
    last, visited := AtTop(t), [AtTop(t)];
    ghost var m := AtTop(MirrorTree(t));
    ghost var seen := [m];
    MirrorSolid(t);
    MirrorTwice(last);
    assert After(m) == Walk(m)[1..];
    while true
      invariant m == Mirror(last) && last == Mirror(m) && visited == MirrorAll(seen)
      invariant TreeOf(m) == MirrorTree(t) && seen + After(m) == Walk(AtTop(MirrorTree(t)))
      decreases |After(m)|
    {
      BackStep(last, m);
      var step := PostorderNext(last);
      match step {
        case Err(top) =>
          MirrorWalk(AtTop(t));
          MirrorTwice(AtTop(t));
          NothingAfter(seen);
          return visited, top;
        case Ok(next) =>
          m := After(m)[0];
          Associative(seen, [m], After(m));
          seen := seen + [m];
          last, visited := next, visited + [next];
      }
    }
  }

  /** The name promises a postorder traversal; it is one exactly for trees of one position. */
  lemma NotPostorder<L, N>(c: Cursor<L, N>)
    ensures Backwards(PostOrder(c)) == PostOrder(c) <==> !c.it.Node?
  {
    if c.it.Node? {
      FirstInPostOrder(c);
      assert Backwards(PostOrder(c))[0] == c;
    }
  }

  lemma {:induction false} FirstInPostOrder<L, N>(c: Cursor<L, N>)
    ensures !PostOrder(c)[0].it.Node?
    decreases c.it
  {
    if c.it.Node? {
      FirstInPostOrder(LeftChild(c));
    }
  }
}
