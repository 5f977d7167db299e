/** Syntax trees as first-child and next-sibling links on the heap: how they are put together, copied,
    compared and searched. */
module AstTree {
  import opened Basics

  class Node {
    const kind: int
    const text: string
    var down: Node?
    var right: Node?

    constructor (kind: int, text: string)
      ensures this.kind == kind && this.text == text && down == null && right == null
    {
      this.kind, this.text := kind, text;
      down, right := null, null;
    }
  }

  /** What hangs on a link: a node with its children, and the siblings after it. */
  datatype Chain = Nil | Cons(node: Node, kids: Chain, rest: Chain)

  ghost function Nodes(s: Chain): set<Node> {
    match s
    case Nil => {}
    case Cons(n, k, r) => {n} + Nodes(k) + Nodes(r)
  }

  /** No node occurs twice. */
  ghost predicate Apart(s: Chain) {
    match s
    case Nil => true
    case Cons(n, k, r) => n !in Nodes(k) && n !in Nodes(r) && Nodes(k) !! Nodes(r) && Apart(k) && Apart(r)
  }

  /** Chains are made of nodes that exist, so calls that only allocate leave them alone. */
  lemma NodesExist(s: Chain)
    ensures forall x :: x in Nodes(s) ==> allocated(x)
  {
  }

  function First(s: Chain): Node? {
    if s.Nil? then null else s.node
  }

  /** The first child of a node of the chain, and its next sibling. */
  ghost function DownIn(s: Chain, x: Node): Node?
    requires x in Nodes(s)
  {
    if x == s.node then First(s.kids) else if x in Nodes(s.kids) then DownIn(s.kids, x) else DownIn(s.rest, x)
  }

  ghost function RightIn(s: Chain, x: Node): Node?
    requires x in Nodes(s)
  {
    if x == s.node then First(s.rest) else if x in Nodes(s.kids) then RightIn(s.kids, x) else RightIn(s.rest, x)
  }

  ghost predicate LinksAs(s: Chain, x: Node)
    requires x in Nodes(s)
    reads x
  {
    x.down == DownIn(s, x) && x.right == RightIn(s, x)
  }

  /** The heap below link `n` has this form. */
  ghost predicate Shows(n: Node?, s: Chain)
    reads Nodes(s)
  {
    n == First(s) && forall x {:trigger LinksAs(s, x)} :: x in Nodes(s) ==> LinksAs(s, x)
  }

  lemma ShowsParts(n: Node?, s: Chain)
    requires s.Cons? && Apart(s) && Shows(n, s)
    ensures n == s.node && Shows(s.node.down, s.kids) && Shows(s.node.right, s.rest)
  {
    assert LinksAs(s, s.node);
    forall x | x in Nodes(s.kids) ensures LinksAs(s.kids, x) { assert LinksAs(s, x); }
    forall x | x in Nodes(s.rest) ensures LinksAs(s.rest, x) { assert LinksAs(s, x); }
  }

  lemma ShowsWhole(s: Chain)
    requires s.Cons? && Apart(s) && Shows(s.node.down, s.kids) && Shows(s.node.right, s.rest)
    ensures Shows(s.node, s)
  {
    forall x | x in Nodes(s) ensures LinksAs(s, x) {
      if x in Nodes(s.kids) {
        assert LinksAs(s.kids, x);
      } else if x in Nodes(s.rest) {
        assert LinksAs(s.rest, x);
      }
    }
  }

  /** The nodes in preorder: each before its children, and those before its siblings. */
  function Visited(s: Chain): seq<Node> {
    match s
    case Nil => []
    case Cons(n, k, r) => [n] + Visited(k) + Visited(r)
  }

  lemma {:induction false} VisitedExactly(s: Chain, x: Node)
    ensures x in Visited(s) <==> x in Nodes(s)
  {
    match s
    case Nil =>
    case Cons(n, k, r) =>
      VisitedExactly(k, x);
      VisitedExactly(r, x);
  }

  function Append(a: Chain, b: Chain): Chain {
    match a
    case Nil => b
    case Cons(n, k, r) => Cons(n, k, Append(r, b))
  }

  ghost function LastNode(s: Chain): (n: Node)
    requires s.Cons?
    ensures n in Nodes(s)
  {
    if s.rest.Nil? then s.node else LastNode(s.rest)
  }

  lemma {:induction false} AppendApart(a: Chain, b: Chain)
    ensures Nodes(Append(a, b)) == Nodes(a) + Nodes(b)
    ensures Apart(a) && Apart(b) && Nodes(a) !! Nodes(b) ==> Apart(Append(a, b))
    ensures b.Cons? ==> Append(a, b).Cons? && LastNode(Append(a, b)) == LastNode(b)
    ensures b.Nil? ==> Append(a, b) == a
  {
    match a
    case Nil =>
    case Cons(n, k, r) => AppendApart(r, b);
  }

  lemma {:induction false} AppendVisits(a: Chain, b: Chain)
    ensures Visited(Append(a, b)) == Visited(a) + Visited(b)
  {
    match a
    case Nil =>
    case Cons(n, k, r) =>
      AppendVisits(r, b);
      Assoc([n] + Visited(k), Visited(r), Visited(b));
  }

  lemma {:induction false} AppendAssociative(a: Chain, b: Chain, c: Chain)
    ensures Append(Append(a, b), c) == Append(a, Append(b, c))
  {
    match a
    case Nil =>
    case Cons(n, k, r) => AppendAssociative(r, b, c);
  }

  /** Appending changes one link: the last sibling's. */
  lemma {:induction false} AppendLinks(a: Chain, b: Chain, x: Node)
    requires a.Cons? && Apart(a) && Nodes(a) !! Nodes(b) && x in Nodes(a) + Nodes(b)
    ensures x in Nodes(Append(a, b))
    ensures DownIn(Append(a, b), x) == if x in Nodes(a) then DownIn(a, x) else DownIn(b, x)
    ensures RightIn(Append(a, b), x) ==
            if x == LastNode(a) then First(b) else if x in Nodes(a) then RightIn(a, x) else RightIn(b, x)
  {
    AppendApart(a.rest, b);
    assert LastNode(a) !in Nodes(a.kids);
    if a.rest.Cons? && x != a.node && x !in Nodes(a.kids) {
      AppendLinks(a.rest, b, x);
    }
  }

  /** Once the last sibling of `a` leads to `b`, the chains are one. */
  lemma Joined(n: Node?, m: Node?, a: Chain, b: Chain)
    requires a.Cons? && Apart(a) && Nodes(a) !! Nodes(b) && Shows(m, b) && n == a.node
    requires LastNode(a).down == DownIn(a, LastNode(a)) && LastNode(a).right == m
    requires forall x :: x in Nodes(a) && x != LastNode(a) ==> LinksAs(a, x)
    ensures Shows(n, Append(a, b))
  {
    AppendApart(a, b);
    forall x | x in Nodes(Append(a, b)) ensures LinksAs(Append(a, b), x) {
      AppendLinks(a, b, x);
      if x in Nodes(b) {
        assert LinksAs(b, x);
      }
    }
  }

  /** Sets the last sibling's link. */
  method SetNextSibling(last: Node, m: Node?, ghost a: Chain, ghost b: Chain)
    requires a.Cons? && Apart(a) && Nodes(a) !! Nodes(b) && Shows(a.node, a) && Shows(m, b) && last == LastNode(a)
    modifies last`right
    ensures Shows(a.node, Append(a, b))
  {
    assert LinksAs(a, last);
    assert forall x :: x in Nodes(a) ==> LinksAs(a, x);
    last.right := m;
    Joined(a.node, m, a, b);
  }

  /** Follows sibling links to the end. */
  method AdvanceToEnd(n: Node, ghost s: Chain) returns (last: Node)
    requires s.Cons? && Apart(s) && Shows(n, s)
    ensures last == LastNode(s)
  {
    last := n;
    ghost var at := s;
    ShowsParts(last, at);
    while last.right != null
      invariant at.Cons? && Apart(at) && Shows(last, at) && LastNode(at) == LastNode(s) && last.right == First(at.rest)
      decreases at
    {
      ShowsParts(last, at);
      last := last.right;
      at := at.rest;
      ShowsParts(last, at);
    }
  }

  // A pair of a root and the child to which siblings are added.

  /** Without a root, additions make a flat list.  Under a root they become its children; a root that
      was made before there was anything below it has no current child yet. */
  datatype Pair =
    | Empty
    | Flat(list: Chain)
    | Rooted(node: Node, kids: Chain, rest: Chain)
    | Bare(node: Node, kids: Chain, rest: Chain)

  function Whole(p: Pair): Chain {
    match p
    case Empty => Nil
    case Flat(l) => l
    case Rooted(n, k, r) => Cons(n, k, r)
    case Bare(n, k, r) => Cons(n, k, r)
  }

  /** The current child is the end of the sibling chain it is in. */
  ghost predicate PairShows(root: Node?, child: Node?, p: Pair)
    reads Nodes(Whole(p))
  {
    && Shows(root, Whole(p))
    && match p
       case Empty => child == null
       case Flat(l) => l.Cons? && child == LastNode(l)
       case Rooted(n, k, r) => k.Cons? && child == LastNode(k)
       case Bare(n, k, r) => child == null
  }

  function Added(p: Pair, l: Chain): Pair {
    if l.Nil? then p
    else match p
         case Empty => Flat(l)
         case Flat(k) => Flat(Append(k, l))
         case Rooted(n, k, r) => Rooted(n, Append(k, l), r)
         case Bare(n, k, r) => Rooted(n, l, r)
  }

  function Topped(p: Pair, l: Chain): Pair {
    if l.Nil? then p
    else if p.Empty? then Bare(l.node, l.kids, l.rest)
    else Rooted(l.node, Append(l.kids, Whole(p)), l.rest)
  }

  lemma AddedApart(p: Pair, l: Chain)
    requires Apart(Whole(p)) && Apart(l) && Nodes(Whole(p)) !! Nodes(l)
    ensures Apart(Whole(Added(p, l)))
    ensures Nodes(Whole(Added(p, l))) ==
            Nodes(Whole(p)) + Nodes(l) - if p.Bare? && l.Cons? then Nodes(p.kids) else {}
  {
    match p
    case Flat(k) => AppendApart(k, l);
    case Rooted(n, k, r) => AppendApart(k, l);
    case _ =>
  }

  lemma ToppedApart(p: Pair, l: Chain)
    requires Apart(Whole(p)) && Apart(l) && Nodes(Whole(p)) !! Nodes(l)
    ensures Apart(Whole(Topped(p, l))) && Nodes(Whole(Topped(p, l))) == Nodes(Whole(p)) + Nodes(l)
  {
    if l.Cons? {
      AppendApart(l.kids, Whole(p));
    }
  }

  /** Hangs a new sibling list on the last child's link, or on the root's when it has no current
      child.  Shared by the pair operations and by `Make`. */
  method Hang(root: Node?, child: Node?, m: Node, ghost p: Pair, ghost l: Chain)
    returns (root': Node, child': Node)
    requires l.Cons? && Shows(m, l) && PairShows(root, child, p)
    requires Apart(Whole(p)) && Apart(l) && Nodes(Whole(p)) !! Nodes(l)
    modifies Nodes(Whole(p))
    ensures PairShows(root', child', Added(p, l)) && Apart(Whole(Added(p, l)))
  {
    AddedApart(p, l);
    NodesExist(Whole(p));
    NodesExist(l);
    if root == null {
      root' := m;
    } else {
      root' := root;
      ShowsParts(root, Whole(p));
      if child == null {
        root.down := m;
      } else {
        SetNextSibling(child, m, if p.Flat? then p.list else p.kids, l);
      }
      if !p.Flat? {
        ShowsWhole(Whole(Added(p, l)));
      }
    }
    child' := AdvanceToEnd(m, l);
    LastOfAdded(p, l);
  }

  lemma LastOfAdded(p: Pair, l: Chain)
    requires l.Cons?
    ensures Added(p, l).Flat? ==> Added(p, l).list.Cons? && LastNode(Added(p, l).list) == LastNode(l)
    ensures Added(p, l).Rooted? ==> Added(p, l).kids.Cons? && LastNode(Added(p, l).kids) == LastNode(l)
    ensures Added(p, l).Flat? || Added(p, l).Rooted?
  {
    match p
    case Flat(k) => AppendApart(k, l);
    case Rooted(n, k, r) => AppendApart(k, l);
    case _ =>
  }

  lemma LastOfAddition(p: Pair, l: Chain)
    ensures l.Cons? ==> match Added(p, l)
                        case Flat(k) => k.Cons? && LastNode(k) == LastNode(l)
                        case Rooted(n, k, r) => k.Cons? && LastNode(k) == LastNode(l)
                        case _ => false
  {
    if l.Cons? {
      LastOfAdded(p, l);
    }
  }

  class ASTPair {
    var root: Node?
    var child: Node?

    constructor ()
      ensures PairShows(root, child, Empty)
    {
      root, child := null, null;
    }

    /** Adds a child and its siblings: behind the current child, or as the root, or as the children of a
        root that has no current child, whose own ones are then lost. */
    method AddASTChild(c: Node?, ghost p: Pair, ghost l: Chain)
      requires Shows(c, l) && PairShows(root, child, p)
      requires Apart(Whole(p)) && Apart(l) && Nodes(Whole(p)) !! Nodes(l)
      modifies this, Nodes(Whole(p))
      ensures PairShows(root, child, Added(p, l)) && Apart(Whole(Added(p, l)))
      ensures c == null ==> root == old(root) && child == old(child)
      ensures c != null ==> l.Cons? && child == LastNode(l) && root == if old(root) == null then c else old(root)
      ensures c != null ==> Shows(root, match p
                                        case Empty => l
                                        case Flat(k) => Append(k, l)
                                        case Rooted(n, k, r) => Cons(n, Append(k, l), r)
                                        case Bare(n, k, r) => Cons(n, l, r))
    {
      LastOfAddition(p, l);
      if c != null {
        var r, e := Hang(root, child, c, p, l);
        root, child := r, e;
      }
    }

    /** Makes a node the root; what was there becomes its last children. */
    method MakeASTRoot(n: Node?, ghost p: Pair, ghost l: Chain)
      requires Shows(n, l) && PairShows(root, child, p)
      requires Apart(Whole(p)) && Apart(l) && Nodes(Whole(p)) !! Nodes(l)
      modifies this, Nodes(l)
      ensures PairShows(root, child, Topped(p, l)) && Apart(Whole(Topped(p, l)))
      ensures n == null ==> root == old(root) && child == old(child)
      ensures n != null ==> root == n && Shows(n, Cons(n, Append(l.kids, Whole(p)), l.rest))
      ensures n != null ==> child == if Whole(p).Nil? then null else LastNode(Whole(p))
    {
      if l.Cons? {
        AppendNil(l.kids);
      }
      ToppedApart(p, l);
      NodesExist(Whole(p));
      NodesExist(l);
      if n != null {
        AddChild(n, root, l, Whole(p));
        child := root;
        if child != null {
          child := AdvanceToEnd(child, Whole(p));
        }
        AppendApart(l.kids, Whole(p));
        root := n;
      }
    }
  }

  /** Adds a child list at the end of a node's children. */
  method AddChild(n: Node, c: Node?, ghost s: Chain, ghost l: Chain)
    requires s.Cons? && Shows(n, s) && Shows(c, l)
    requires Apart(s) && Apart(l) && Nodes(s) !! Nodes(l)
    modifies Nodes(s)
    ensures Shows(n, Cons(n, Append(s.kids, l), s.rest)) && Shows(c, l)
  {
    AppendApart(s.kids, l);
    ShowsParts(n, s);
    NodesExist(s);
    NodesExist(l);
    if c != null {
      var tmp := n.down;
      if tmp != null {
        var last := AdvanceToEnd(tmp, s.kids);
        SetNextSibling(last, c, s.kids, l);
      } else {
        n.down := c;
      }
    }
    ShowsWhole(Cons(n, Append(s.kids, l), s.rest));
  }

  // Several lists at once.

  ghost function AllNodes(ls: seq<Chain>): set<Node> {
    if ls == [] then {} else Nodes(ls[0]) + AllNodes(ls[1..])
  }

  ghost predicate AllApart(ls: seq<Chain>) {
    ls == [] || (Apart(ls[0]) && Nodes(ls[0]) !! AllNodes(ls[1..]) && AllApart(ls[1..]))
  }

  ghost predicate AllShow(nodes: seq<Node?>, ls: seq<Chain>)
    reads AllNodes(ls)
    decreases |ls|
  {
    |nodes| == |ls| && (ls == [] || (Shows(nodes[0], ls[0]) && AllShow(nodes[1..], ls[1..])))
  }

  lemma AllNodesExist(ls: seq<Chain>)
    ensures forall x :: x in AllNodes(ls) ==> allocated(x)
  {
    if ls != [] {
      NodesExist(ls[0]);
      AllNodesExist(ls[1..]);
    }
  }

  function AddedAll(p: Pair, ls: seq<Chain>): Pair
    decreases |ls|
  {
    if ls == [] then p else AddedAll(Added(p, ls[0]), ls[1..])
  }

  function Concat(ls: seq<Chain>): Chain {
    if ls == [] then Nil else Append(ls[0], Concat(ls[1..]))
  }

  /** Additions concatenate: to a flat list, or to the children of the root. */
  lemma {:induction false} AdditionsConcatenate(p: Pair, ls: seq<Chain>)
    ensures Whole(AddedAll(p, ls)) ==
            match p
            case Empty => Concat(ls)
            case Flat(l) => Append(l, Concat(ls))
            case Rooted(n, k, r) => Cons(n, Append(k, Concat(ls)), r)
            case Bare(n, k, r) => Cons(n, if Concat(ls) == Nil then k else Concat(ls), r)
    decreases |ls|
  {
    if ls == [] {
      AppendNil(if p.Flat? then p.list else if p.Rooted? then p.kids else Nil);
    } else {
      AdditionsConcatenate(Added(p, ls[0]), ls[1..]);
      AppendAssociative(if p.Flat? then p.list else if p.Rooted? then p.kids else Nil, ls[0], Concat(ls[1..]));
    }
  }

  lemma {:induction false} AppendNil(a: Chain)
    ensures Append(a, Nil) == a
  {
    if a.Cons? {
      AppendNil(a.rest);
    }
  }

  /** A call of a pair's operations: a child is added, or a root made. */
  datatype PairOp = Add | Top

  function Performed(p: Pair, op: PairOp, l: Chain): Pair {
    match op
    case Add => Added(p, l)
    case Top => Topped(p, l)
  }

  function AllPerformed(p: Pair, ops: seq<PairOp>, ls: seq<Chain>): Pair
    requires |ops| == |ls|
    decreases |ops|
  {
    if ops == [] then p else AllPerformed(Performed(p, ops[0], ls[0]), ops[1..], ls[1..])
  }

  // The tree of a run, written down from the calls.

  /** A tree in preorder with the place where the next child goes.  `own` are children that a root has
      brought along; the first child that is added replaces them. */
  datatype Written = Written(before: seq<Node>, own: seq<Node>, after: seq<Node>)

  function Text(w: Written): seq<Node> {
    w.before + w.own + w.after
  }

  /** A child is written at the place; a root before everything, its own children in between, and its
      siblings behind. */
  function Typed(w: Written, op: PairOp, l: Chain): Written {
    if l.Nil? then w
    else match op
         case Add => Written(w.before + Visited(l), [], w.after)
         case Top =>
           if Text(w) == [] then Written([l.node], Visited(l.kids), Visited(l.rest))
           else Written([l.node] + Visited(l.kids) + Text(w), [], Visited(l.rest))
  }

  function AllTyped(w: Written, ops: seq<PairOp>, ls: seq<Chain>): Written
    requires |ops| == |ls|
    decreases |ops|
  {
    if ops == [] then w else AllTyped(Typed(w, ops[0], ls[0]), ops[1..], ls[1..])
  }

  function AsWritten(p: Pair): Written {
    match p
    case Empty => Written([], [], [])
    case Flat(l) => Written(Visited(l), [], [])
    case Rooted(n, k, r) => Written([n] + Visited(k), [], Visited(r))
    case Bare(n, k, r) => Written([n], Visited(k), Visited(r))
  }

  /** There is something where there is a current child. */
  predicate Proper(p: Pair) {
    match p
    case Flat(l) => l.Cons?
    case Rooted(n, k, r) => k.Cons?
    case _ => true
  }

  lemma AsWrittenText(p: Pair)
    ensures Text(AsWritten(p)) == Visited(Whole(p))
    ensures Proper(p) ==> (Text(AsWritten(p)) == [] <==> p.Empty?)
  {
  }

  lemma TypedStep(p: Pair, op: PairOp, l: Chain)
    requires Proper(p)
    ensures Proper(Performed(p, op, l)) && AsWritten(Performed(p, op, l)) == Typed(AsWritten(p), op, l)
  {
    AsWrittenText(p);
    if l.Cons? {
      match op
      case Add =>
        LastOfAdded(p, l);
        AddedText(p, l);
      case Top =>
        AppendVisits(l.kids, Whole(p));
        AppendApart(l.kids, Whole(p));
        assert [l.node] + (Visited(l.kids) + Visited(Whole(p))) == [l.node] + Visited(l.kids) + Visited(Whole(p));
    }
  }

  lemma AddedText(p: Pair, l: Chain)
    requires l.Cons? && Proper(p)
    ensures AsWritten(Added(p, l)) == Written(AsWritten(p).before + Visited(l), [], AsWritten(p).after)
  {
    match p
    case Empty => assert [] + Visited(l) == Visited(l);
    case Flat(k) => AppendVisits(k, l);
    case Rooted(n, k, r) =>
      AppendVisits(k, l);
      assert [n] + (Visited(k) + Visited(l)) == [n] + Visited(k) + Visited(l);
    case Bare(n, k, r) =>
  }

  /** The tree of a run, in preorder, is what the calls write. */
  lemma {:induction false} RunIsWritten(p: Pair, ops: seq<PairOp>, ls: seq<Chain>)
    requires |ops| == |ls| && Proper(p)
    ensures Visited(Whole(AllPerformed(p, ops, ls))) == Text(AllTyped(AsWritten(p), ops, ls))
    decreases |ops|
  {
    if ops == [] {
      AsWrittenText(p);
    } else {
      TypedStep(p, ops[0], ls[0]);
      RunIsWritten(Performed(p, ops[0], ls[0]), ops[1..], ls[1..]);
    }
  }

  /** Any run of the two operations builds the tree they describe, and always leaves the current child
      at the end of its chain. */
  method RunPair(pair: ASTPair, ops: seq<PairOp>, nodes: seq<Node?>, ghost p: Pair, ghost ls: seq<Chain>)
    requires |ops| == |nodes| == |ls| && AllShow(nodes, ls) && AllApart(ls)
    requires PairShows(pair.root, pair.child, p) && Apart(Whole(p)) && Nodes(Whole(p)) !! AllNodes(ls)
    modifies pair, Nodes(Whole(p)) + AllNodes(ls)
    ensures PairShows(pair.root, pair.child, AllPerformed(p, ops, ls)) && Apart(Whole(AllPerformed(p, ops, ls)))
    ensures Visited(Whole(AllPerformed(p, ops, ls))) == Text(AllTyped(AsWritten(p), ops, ls))
    decreases |ops|
  {
    RunIsWritten(p, ops, ls);
    if |ops| > 0 {
      AllNodesExist(ls);
      NodesExist(Whole(p));
      AddedApart(p, ls[0]);
      ToppedApart(p, ls[0]);
      match ops[0] {
        case Add => pair.AddASTChild(nodes[0], p, ls[0]);
        case Top => pair.MakeASTRoot(nodes[0], p, ls[0]);
      }
      RunPair(pair, ops[1..], nodes[1..], Performed(p, ops[0], ls[0]), ls[1..]);
    }
  }

  lemma {:induction false} ConcatVisits(ls: seq<Chain>)
    ensures Visited(Concat(ls)) == VisitedAll(ls)
  {
    if ls != [] {
      ConcatVisits(ls[1..]);
      AppendVisits(ls[0], Concat(ls[1..]));
    }
  }

  function VisitedAll(ls: seq<Chain>): seq<Node> {
    if ls == [] then [] else Visited(ls[0]) + VisitedAll(ls[1..])
  }

  /** A tree from a root and lists of children; without a root, just the list. */
  function Made(ls: seq<Chain>): Chain {
    if ls == [] then Nil
    else if ls[0].Nil? then Concat(ls[1..])
    else Cons(ls[0].node, Concat(ls[1..]), ls[0].rest)
  }

  method Make(nodes: seq<Node?>, ghost ls: seq<Chain>) returns (root: Node?)
    requires AllShow(nodes, ls) && AllApart(ls)
    modifies AllNodes(ls)
    ensures Shows(root, Made(ls))
    ensures ls != [] && nodes[0] != null ==>
              root == nodes[0] && ls[0].Cons? && Shows(root, Cons(nodes[0], Concat(ls[1..]), ls[0].rest))
    ensures ls != [] && nodes[0] == null ==> Shows(root, Concat(ls[1..]))
  {
    if |nodes| == 0 {
      return null;
    }
    AllNodesExist(ls);
    root := nodes[0];
    var tail: Node? := null;
    ghost var p, rest := Empty, ls[1..];
    if root != null {
      ShowsParts(root, ls[0]);
      root.down := null;
      p := Bare(ls[0].node, Nil, ls[0].rest);
      ShowsWhole(Whole(p));
    }
    AdditionsConcatenate(p, rest);
    var i := 1;
    while i < |nodes|
      invariant 1 <= i <= |nodes| && rest == ls[i..]
      invariant AllShow(nodes[i..], rest) && AllApart(rest)
      invariant PairShows(root, tail, p) && Apart(Whole(p)) && Nodes(Whole(p)) !! AllNodes(rest)
      invariant Nodes(Whole(p)) + AllNodes(rest) <= AllNodes(ls)
      invariant Whole(AddedAll(p, rest)) == Made(ls)
    {
      AllNodesExist(rest);
      NodesExist(Whole(p));
      if nodes[i] != null {
        AddedApart(p, rest[0]);
        root, tail := Hang(root, tail, nodes[i], p, rest[0]);
      }
      p, rest := Added(p, rest[0]), rest[1..];
      i := i + 1;
    }
  }

  // Comparing.

  /** What comparing looks at: the tokens and the structure, not which nodes carry them. */
  datatype Plain = Leaf | Tree(kind: int, text: string, kids: Plain, rest: Plain)

  function Erase(s: Chain): Plain {
    match s
    case Nil => Leaf
    case Cons(n, k, r) => Tree(n.kind, n.text, Erase(k), Erase(r))
  }

  /** Two lists of trees carry the same tokens in the same places. */
  predicate SameShape(a: Chain, b: Chain) {
    match (a, b)
    case (Nil, Nil) => true
    case (Cons(n, k, r), Cons(m, l, t)) => n.kind == m.kind && n.text == m.text && SameShape(k, l) && SameShape(r, t)
    case _ => false
  }

  lemma {:induction false} EraseExactly(a: Chain, b: Chain)
    ensures Erase(a) == Erase(b) <==> SameShape(a, b)
  {
    if a.Cons? && b.Cons? {
      EraseExactly(a.kids, b.kids);
      EraseExactly(a.rest, b.rest);
    }
  }

  /** The tree at the front, without its siblings. */
  function Front(t: Plain): Plain {
    if t.Leaf? then Leaf else t.(rest := Leaf)
  }

  predicate SameToken(a: Plain, t: Plain) {
    a.Tree? && t.Tree? && a.kind == t.kind && a.text == t.text
  }

  /** The partial match: a node without children accepts anything below its counterpart. */
  predicate PartialList(a: Plain, sub: Plain) {
    sub.Leaf? ||
    (SameToken(a, sub) && (a.kids.Leaf? || PartialList(a.kids, sub.kids)) && PartialList(a.rest, sub.rest))
  }

  predicate PartialTree(a: Plain, sub: Plain) {
    sub.Leaf? || (SameToken(a, sub) && (a.kids.Leaf? || PartialList(a.kids, sub.kids)))
  }

  /** An exact match is a partial one. */
  lemma {:induction false} ExactIsPartial(a: Plain)
    ensures PartialList(a, a) && PartialTree(a, Front(a)) && PartialTree(a, a)
  {
    if a.Tree? {
      ExactIsPartial(a.kids);
      ExactIsPartial(a.rest);
    }
  }

  /** Partial matching is not an order: it accepts a pattern that its own pattern accepts, but not
      through it. */
  lemma PartialIsNotTransitive() returns (a: Plain, b: Plain, c: Plain)
    ensures PartialTree(a, b) && PartialTree(b, c) && !PartialTree(a, c)
  {
    a := Tree(1, "", Tree(2, "", Leaf, Leaf), Leaf);
    b := Tree(1, "", Leaf, Leaf);
    c := Tree(1, "", Tree(3, "", Leaf, Leaf), Leaf);
  }

  /** `a` has all the tokens of `b`, in the same places, and below each of them either no children, which
      accepts anything, or children that refine those of `b`. */
  predicate Refines(a: Plain, b: Plain)
    decreases b, 1
  {
    b.Leaf? ||
    (SameToken(a, b) && RefinesKids(a, b) && Refines(a.rest, b.rest))
  }

  predicate RefinesKids(a: Plain, b: Plain)
    requires a.Tree? && b.Tree?
    decreases b, 0
  {
    a.kids.Leaf? || (b.kids.Tree? && Refines(a.kids, b.kids))
  }

  lemma {:induction false} RefinesAccepts(a: Plain, b: Plain, c: Plain)
    requires Refines(a, b) && PartialList(b, c)
    ensures PartialList(a, c)
  {
    if c.Tree? {
      if a.kids.Tree? && b.kids.Tree? {
        RefinesAccepts(a.kids, b.kids, c.kids);
      }
      RefinesAccepts(a.rest, b.rest, c.rest);
    }
  }

  /** A list that `b` accepts and `a` does not. */
  lemma {:induction false} Witness(a: Plain, b: Plain) returns (c: Plain)
    requires !Refines(a, b)
    ensures PartialList(b, c) && !PartialList(a, c)
  {
    c := Tree(b.kind, b.text, Leaf, Leaf);
    assert PartialList(b.kids, Leaf) && PartialList(b.rest, Leaf);
    if SameToken(a, b) {
      if !RefinesKids(a, b) {
        var kids;
        if b.kids.Leaf? {
          kids := Tree(a.kids.kind + 1, "", Leaf, Leaf);
        } else {
          kids := Witness(a.kids, b.kids);
        }
        c := Tree(b.kind, b.text, kids, Leaf);
      } else {
        var rest := Witness(a.rest, b.rest);
        c := Tree(b.kind, b.text, Leaf, rest);
      }
    }
  }

  /** `a` accepts whatever `b` accepts if and only if it refines it. */
  lemma PartialComposes(a: Plain, b: Plain)
    ensures (forall c :: PartialList(b, c) ==> PartialList(a, c)) <==> Refines(a, b)
  {
    if Refines(a, b) {
      forall c | PartialList(b, c) ensures PartialList(a, c) {
        RefinesAccepts(a, b, c);
      }
    } else {
      var c := Witness(a, b);
    }
  }

  /** The same for trees without their siblings. */
  lemma PartialTreeComposes(a: Plain, b: Plain)
    ensures (forall c :: PartialTree(b, c) ==> PartialTree(a, c)) <==>
            b.Leaf? || (SameToken(a, b) && RefinesKids(a, b))
  {
    if b.Leaf? || (SameToken(a, b) && RefinesKids(a, b)) {
      forall c | PartialTree(b, c) ensures PartialTree(a, c) {
        if c.Tree? && a.kids.Tree? && b.kids.Tree? {
          RefinesAccepts(a.kids, b.kids, c.kids);
        }
      }
    } else {
      var c := Witness(Front(a), Front(b));
      assert PartialTree(b, c) && !PartialTree(a, c);
    }
  }

  method Equals(a: Node, t: Node?) returns (b: bool)
    ensures b <==> t != null && a.kind == t.kind && a.text == t.text
  {
    if t == null {
      return false;
    }
    b := a.kind == t.kind && a.text == t.text;
  }

  /** Decides structural equality of the lists that start at two nodes. */
  method EqualsList(a: Node, t: Node?, ghost sa: Chain, ghost st: Chain) returns (b: bool)
    requires Shows(a, sa) && Apart(sa) && Shows(t, st) && Apart(st)
    ensures b <==> Erase(sa) == Erase(st)
    decreases sa
  {
    if t == null {
      return false;
    }
    NodesExist(sa);
    NodesExist(st);
    var sibling: Node?, t' := a, t;
    ghost var at, tt := sa, st;
    while sibling != null && t' != null
      invariant Shows(sibling, at) && Apart(at) && Shows(t', tt) && Apart(tt) && !(sa < at)
      invariant Nodes(at) <= Nodes(sa) && Nodes(tt) <= Nodes(st)
      invariant Erase(sa) == Erase(st) <==> Erase(at) == Erase(tt)
      decreases at
    {
      ShowsParts(sibling, at);
      ShowsParts(t', tt);
      var same := Equals(sibling, t');
      if !same {
        return false;
      }
      if sibling.down != null {
        var below := EqualsList(sibling.down, t'.down, at.kids, tt.kids);
        if !below {
          return false;
        }
      } else if t'.down != null {
        return false;
      }
      sibling, t' := sibling.right, t'.right;
      at, tt := at.rest, tt.rest;
    }
    b := sibling == null && t' == null;
  }

  method EqualsTree(a: Node, t: Node?, ghost sa: Chain, ghost st: Chain) returns (b: bool)
    requires Shows(a, sa) && Apart(sa) && Shows(t, st) && Apart(st)
    ensures b <==> Front(Erase(sa)) == Front(Erase(st))
  {
    NodesExist(sa);
    NodesExist(st);
    b := Equals(a, t);
    if b {
      ShowsParts(a, sa);
      ShowsParts(t, st);
      if a.down != null {
        b := EqualsList(a.down, t.down, sa.kids, st.kids);
      } else {
        b := t.down == null;
      }
    }
  }

  method EqualsListPartial(a: Node, sub: Node?, ghost sa: Chain, ghost st: Chain) returns (b: bool)
    requires Shows(a, sa) && Apart(sa) && Shows(sub, st) && Apart(st)
    ensures b <==> PartialList(Erase(sa), Erase(st))
    decreases sa
  {
    if sub == null {
      return true;
    }
    NodesExist(sa);
    NodesExist(st);
    var sibling: Node?, sub' := a, sub;
    ghost var at, tt := sa, st;
    while sibling != null && sub' != null
      invariant Shows(sibling, at) && Apart(at) && Shows(sub', tt) && Apart(tt) && !(sa < at)
      invariant Nodes(at) <= Nodes(sa) && Nodes(tt) <= Nodes(st)
      invariant PartialList(Erase(sa), Erase(st)) <==> PartialList(Erase(at), Erase(tt))
      decreases at
    {
      ShowsParts(sibling, at);
      ShowsParts(sub', tt);
      var same := Equals(sibling, sub');
      if !same {
        return false;
      }
      if sibling.down != null {
        var below := EqualsListPartial(sibling.down, sub'.down, at.kids, tt.kids);
        if !below {
          return false;
        }
      }
      sibling, sub' := sibling.right, sub'.right;
      at, tt := at.rest, tt.rest;
    }
    b := !(sibling == null && sub' != null);
  }

  method EqualsTreePartial(a: Node, sub: Node?, ghost sa: Chain, ghost st: Chain) returns (b: bool)
    requires Shows(a, sa) && Apart(sa) && Shows(sub, st) && Apart(st)
    ensures b <==> PartialTree(Erase(sa), Erase(st))
  {
    if sub == null {
      return true;
    }
    NodesExist(sa);
    NodesExist(st);
    b := Equals(a, sub);
    ShowsParts(a, sa);
    ShowsParts(sub, st);
    if b && a.down != null {
      b := EqualsListPartial(a.down, sub.down, sa.kids, st.kids);
    }
  }

  // Searching.

  /** The trees of a list in preorder, each with its later siblings. */
  ghost function Preorder(s: Chain): (out: seq<Chain>)
    ensures forall c :: c in out ==> c.Cons?
  {
    match s
    case Nil => []
    case Cons(n, k, r) => [s] + Preorder(k) + Preorder(r)
  }

  /** Every node is the root of one of them. */
  lemma {:induction false} PreorderExactly(s: Chain, x: Node)
    ensures x in Nodes(s) <==> exists c :: c in Preorder(s) && c.node == x
  {
    match s
    case Nil =>
    case Cons(n, k, r) =>
      PreorderExactly(k, x);
      PreorderExactly(r, x);
      assert s in Preorder(s);
  }

  /** The tree with this node as its root is what is looked for: in a partial match with anything below a
      childless node, otherwise token for token. */
  ghost predicate Hit(s: Chain, x: Node, target: Plain, partial: bool) {
    exists c :: c in Preorder(s) && c.node == x &&
                if partial then PartialTree(Erase(c), target) else SameTree(Erase(c), target)
  }

  /** The same tokens in the same places, up to the siblings of the root. */
  predicate SameTree(a: Plain, b: Plain) {
    match (a, b)
    case (Leaf, Leaf) => true
    case (Tree(i, x, k, _), Tree(j, y, l, _)) => i == j && x == y && SameList(k, l)
    case _ => false
  }

  predicate SameList(a: Plain, b: Plain) {
    match (a, b)
    case (Leaf, Leaf) => true
    case (Tree(i, x, k, r), Tree(j, y, l, t)) => i == j && x == y && SameList(k, l) && SameList(r, t)
    case _ => false
  }

  lemma {:induction false} SameIsEqual(a: Plain, b: Plain)
    ensures SameList(a, b) <==> a == b
  {
    if a.Tree? && b.Tree? {
      SameIsEqual(a.kids, b.kids);
      SameIsEqual(a.rest, b.rest);
    }
  }

  lemma {:induction false} FoundExactly(cs: seq<Chain>, target: Plain, partial: bool, x: Node)
    requires forall c :: c in cs ==> c.Cons?
    ensures x in Found(cs, target, partial) <==>
            exists c :: c in cs && c.node == x &&
                        if partial then PartialTree(Erase(c), target) else SameTree(Erase(c), target)
  {
    if cs != [] {
      FoundExactly(cs[1..], target, partial, x);
      assert cs == [cs[0]] + cs[1..];
      var t := Erase(cs[0]);
      if t.Tree? && target.Tree? {
        SameIsEqual(t.kids, target.kids);
      }
    }
  }

  ghost predicate Matches(c: Chain, target: Plain, partial: bool) {
    if partial then PartialTree(Erase(c), target) else Front(Erase(c)) == Front(target)
  }

  /** The roots of those trees of a list that match. */
  ghost function Found(cs: seq<Chain>, target: Plain, partial: bool): seq<Node>
    requires forall c :: c in cs ==> c.Cons?
  {
    if cs == [] then []
    else if Matches(cs[0], target, partial) then [cs[0].node] + Found(cs[1..], target, partial)
    else Found(cs[1..], target, partial)
  }

  lemma {:induction false} FoundAppend(a: seq<Chain>, b: seq<Chain>, target: Plain, partial: bool)
    requires (forall c :: c in a ==> c.Cons?) && (forall c :: c in b ==> c.Cons?)
    ensures Found(a + b, target, partial) == Found(a, target, partial) + Found(b, target, partial)
  {
    if a == [] {
      assert a + b == b;
    } else {
      assert (a + b)[0] == a[0] && (a + b)[1..] == a[1..] + b;
      FoundAppend(a[1..], b, target, partial);
    }
  }

  lemma FoundHere(s: Chain, target: Plain, partial: bool)
    requires s.Cons?
    ensures Found([s], target, partial) == if Matches(s, target, partial) then [s.node] else []
  {
    assert [s][1..] == [];
  }

  /** A node, what is below it, and its later siblings. */
  lemma FoundStep(v: seq<Node>, v': seq<Node>, s: Chain, target: Plain, partial: bool)
    requires s.Cons?
    requires v' == v + (if Matches(s, target, partial) then [s.node] else []) + Found(Preorder(s.kids), target, partial)
    ensures v + Found(Preorder(s), target, partial) == v' + Found(Preorder(s.rest), target, partial)
  {
    var here, kids, rest := Found([s], target, partial), Preorder(s.kids), Preorder(s.rest);
    FoundHere(s, target, partial);
    FoundAppend([s] + kids, rest, target, partial);
    FoundAppend([s], kids, target, partial);
    Assoc(v, here, Found(kids, target, partial));
    Assoc(v, here + Found(kids, target, partial), Found(rest, target, partial));
  }

  /** Adds the node if it matches. */
  method Visit(v: seq<Node>, a: Node, target: Node, partial: bool, ghost sa: Chain, ghost st: Chain)
    returns (v': seq<Node>)
    requires Shows(a, sa) && Apart(sa) && Shows(target, st) && Apart(st)
    ensures v' == v + if Matches(sa, Erase(st), partial) then [a] else []
  {
    v' := v;
    var hit;
    if partial {
      hit := EqualsTreePartial(a, target, sa, st);
    } else {
      hit := EqualsTree(a, target, sa, st);
    }
    if hit {
      v' := v' + [a];
    }
  }

  /** Collects the matching nodes of a list and below it. */
  method DoWorkForFindAll(v: seq<Node>, a: Node, target: Node, partial: bool, ghost sa: Chain, ghost st: Chain)
    returns (v': seq<Node>)
    requires Shows(a, sa) && Apart(sa) && Shows(target, st) && Apart(st)
    ensures v' == v + Found(Preorder(sa), Erase(st), partial)
    decreases sa
  {
    v' := v;
    NodesExist(sa);
    NodesExist(st);
    var sibling: Node? := a;
    ghost var at, want := sa, Erase(st);
    while sibling != null
      invariant Shows(sibling, at) && Apart(at) && Nodes(at) <= Nodes(sa) && !(sa < at)
      invariant Shows(target, st)
      invariant v' + Found(Preorder(at), want, partial) == v + Found(Preorder(sa), want, partial)
      decreases at
    {
      ghost var v0, rest := v', at.rest;
      assert Nodes(at.kids) <= Nodes(at) && Nodes(rest) <= Nodes(at);
      v' := Visit(v', sibling, target, partial, at, st);
      ShowsParts(sibling, at);
      if sibling.down != null {
        v' := DoWorkForFindAll(v', sibling.down, target, partial, at.kids, st);
      }
      FoundStep(v0, v', at, want, partial);
      ShowsParts(sibling, at);
      sibling := sibling.right;
      at := rest;
    }
  }

  /** Exactly the matching nodes, in preorder; a null target finds nothing. */
  method FindAll(a: Node, target: Node?, partial: bool, ghost sa: Chain, ghost st: Chain) returns (roots: seq<Node>)
    requires Shows(a, sa) && Apart(sa) && Shows(target, st) && Apart(st)
    ensures roots == if target == null then [] else Found(Preorder(sa), Erase(st), partial)
    ensures target != null ==> forall x :: x in Nodes(sa) ==> (x in roots <==> Hit(sa, x, Erase(st), partial))
  {
    forall x | x in Nodes(sa) ensures x in Found(Preorder(sa), Erase(st), partial) <==> Hit(sa, x, Erase(st), partial) {
      FoundExactly(Preorder(sa), Erase(st), partial, x);
    }
    roots := [];
    if target != null {
      roots := DoWorkForFindAll(roots, a, target, partial, sa, st);
    }
  }

  // Copying.

  method Dup(t: Node?) returns (r: Node?)
    ensures t == null ==> r == null
    ensures t != null ==> r != null && fresh(r) && r.kind == t.kind && r.text == t.text && r.down == r.right == null
  {
    r := null;
    if t != null {
      r := new Node(t.kind, t.text);
    }
  }

  /** A copy of one tree, without siblings, made of fresh nodes only. */
  method DupTree(t: Node?, ghost s: Chain) returns (r: Node?, ghost d: Chain)
    requires Shows(t, s) && Apart(s)
    ensures Shows(r, d) && Apart(d) && fresh(Nodes(d)) && Erase(d) == Front(Erase(s))
    decreases s, 0
  {
    NodesExist(s);
    r := Dup(t);
    d := Nil;
    if t != null {
      ShowsParts(t, s);
      ghost var k;
      var below;
      below, k := DupList(t.down, s.kids);
      r.down := below;
      d := Cons(r, k, Nil);
      ShowsWhole(d);
    }
  }

  lemma {:induction false} EraseAppend(a: Chain, b: Chain, c: Chain)
    requires Erase(b) == Front(Erase(c)) && c.Cons?
    ensures EraseThen(Append(a, b), Erase(c.rest)) == EraseThen(a, Erase(c))
  {
    if a.Cons? {
      EraseAppend(a.rest, b, c);
    } else {
      assert b.rest.Nil?;
    }
  }

  /** The erased list, continued. */
  function EraseThen(a: Chain, t: Plain): Plain {
    match a
    case Nil => t
    case Cons(n, k, r) => Tree(n.kind, n.text, Erase(k), EraseThen(r, t))
  }

  lemma {:induction false} EraseThenLeaf(a: Chain)
    ensures EraseThen(a, Leaf) == Erase(a)
  {
    if a.Cons? {
      EraseThenLeaf(a.rest);
    }
  }

  /** `d` copies everything before `at` and the tree at its front. */
  ghost predicate Copied(d: Chain, at: Chain, s: Chain) {
    if at.Nil? then Erase(d) == Erase(s) else d.Cons? && EraseThen(d, Erase(at.rest)) == Erase(s)
  }

  lemma CopyOneMore(d: Chain, more: Chain, at: Chain, s: Chain)
    requires at.Cons? && Copied(d, at, s) && Erase(more) == Front(Erase(at.rest))
    ensures Copied(Append(d, more), at.rest, s)
    ensures more.Cons? <==> at.rest.Cons?
    ensures more.Cons? ==> LastNode(Append(d, more)) == more.node
  {
    AppendApart(d, more);
    if at.rest.Cons? {
      EraseAppend(d, more, at.rest);
      assert more.rest.Nil?;
    } else {
      EraseThenLeaf(d);
    }
  }

  lemma CopyFirst(d: Chain, s: Chain)
    requires Erase(d) == Front(Erase(s))
    ensures Copied(d, s, s)
    ensures s.Cons? ==> d.Cons? && LastNode(d) == d.node
  {
    if s.Cons? {
      EraseAppend(Nil, d, s);
      assert d.rest.Nil?;
    }
  }

  /** Hangs the copy of the next tree after the last one. */
  method CopyNext(result: Node, nt: Node, t: Node?, ghost d: Chain, ghost at: Chain, ghost s: Chain)
    returns (next: Node?, ghost d': Chain)
    requires at.Cons? && Shows(t, at.rest) && Apart(at.rest) && Copied(d, at, s)
    requires d.Cons? && Shows(result, d) && Apart(d) && nt == LastNode(d)
    modifies nt`right
    decreases at, 0
    ensures Shows(result, d') && Apart(d') && Copied(d', at.rest, s)
    ensures forall x :: x in Nodes(d') ==> x in Nodes(d) || fresh(x)
    ensures next != null ==> d'.Cons? && next == LastNode(d')
    ensures next != null <==> at.rest.Cons?
  {
    NodesExist(d);
    ghost var more;
    next, more := DupTree(t, at.rest);
    SetNextSibling(nt, next, d, more);
    CopyOneMore(d, more, at, s);
    AppendApart(d, more);
    d' := Append(d, more);
  }

  /** A copy of a list of trees, made of fresh nodes only. */
  method DupList(t: Node?, ghost s: Chain) returns (result: Node?, ghost d: Chain)
    requires Shows(t, s) && Apart(s)
    ensures Shows(result, d) && Apart(d) && fresh(Nodes(d)) && Erase(d) == Erase(s)
    decreases s, 1
  {
    NodesExist(s);
    result, d := DupTree(t, s);
    var nt, t' := result, t;
    ghost var at := s;
    CopyFirst(d, s);
    while t' != null
      invariant Shows(t', at) && Apart(at) && Nodes(at) <= Nodes(s) && !(s < at)
      invariant Shows(result, d) && Apart(d) && fresh(Nodes(d)) && Copied(d, at, s)
      invariant t' != null ==> d.Cons? && nt == LastNode(d)
      decreases at
    {
      ShowsParts(t', at);
      assert Nodes(at.rest) <= Nodes(at);
      t' := t'.right;
      nt, d := CopyNext(result, nt, t', d, at, s);
      NodesExist(d);
      at := at.rest;
    }
  }
}
