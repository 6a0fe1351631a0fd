/**
 * The tree-building actions of `parse.y`, run in the order the grammar reduces
 * its rules, proved to link the tree `RuleModel.Compile` describes.
 */
module RuleParser {
  import opened Options
  import opened RuleModel
  import opened RuleEval

  // ---- appending to a linked list of siblings -----------------------------------------

  lemma {:induction false} NodesAppend(a: seq<Shape>, b: seq<Shape>)
    ensures NodesOf(a + b) == NodesOf(a) + NodesOf(b)
    decreases |a|
  {
    if a == [] {
      assert a + b == b;
    } else {
      NodesAppend(a[1..], b);
      assert (a + b)[1..] == a[1..] + b;
    }
  }

  lemma {:induction false} DistinctAppend(a: seq<Shape>, b: seq<Shape>)
    requires Distinct(a) && Distinct(b) && NodesOf(a) !! NodesOf(b)
    ensures Distinct(a + b)
    decreases |a|
  {
    if a == [] {
      assert a + b == b;
    } else {
      DistinctAppend(a[1..], b);
      NodesAppend(a[1..], b);
      assert (a + b)[1..] == a[1..] + b;
    }
  }

  /** Like `Linked`, but the last sibling pointer leads to `end`. */
  ghost predicate Segment(n: Node?, ss: seq<Shape>, ts: seq<Tree>, end: Node?)
    reads NodesOf(ss)`child, NodesOf(ss)`sibling, NodesOf(ss)`op
    decreases ss
  {
    if ss == [] then n == end && ts == []
    else
      ts != [] && n == ss[0].node && n.op == ts[0].op
      && Linked(n.child, ss[0].kids, ts[0].kids) && Segment(n.sibling, ss[1..], ts[1..], end)
  }

  lemma {:induction false} SegmentThenLinked(n: Node?, a: seq<Shape>, ta: seq<Tree>, mid: Node?, b: seq<Shape>, tb: seq<Tree>)
    requires Segment(n, a, ta, mid) && Linked(mid, b, tb)
    ensures Linked(n, a + b, ta + tb)
    decreases |a|
  {
    if a == [] {
      assert a + b == b && ta + tb == tb;
    } else {
      SegmentThenLinked(n.sibling, a[1..], ta[1..], mid, b, tb);
      assert (a + b)[1..] == a[1..] + b && (ta + tb)[1..] == ta[1..] + tb;
    }
  }

  lemma {:induction false} SegmentThenSegment(n: Node?, a: seq<Shape>, ta: seq<Tree>, mid: Node?, b: seq<Shape>, tb: seq<Tree>, end: Node?)
    requires Segment(n, a, ta, mid) && Segment(mid, b, tb, end)
    ensures Segment(n, a + b, ta + tb, end)
    decreases |a|
  {
    if a == [] {
      assert a + b == b && ta + tb == tb;
    } else {
      SegmentThenSegment(n.sibling, a[1..], ta[1..], mid, b, tb, end);
      assert (a + b)[1..] == a[1..] + b && (ta + tb)[1..] == ta[1..] + tb;
    }
  }

  /** A linked sibling list in two halves shares no node between them. */
  lemma SplitApart(ss: seq<Shape>, i: nat)
    requires Distinct(ss) && i <= |ss|
    ensures NodesOf(ss[..i]) !! NodesOf(ss[i..]) && NodesOf(ss) == NodesOf(ss[..i]) + NodesOf(ss[i..])
    ensures Distinct(ss[i..])
    decreases |ss|
  {
    if i > 0 {
      SplitApart(ss[1..], i - 1);
      assert ss[1..][..i - 1] == ss[1..i] == ss[..i][1..] && ss[1..][i - 1..] == ss[i..];
    } else {
      assert ss[..0] == [] && ss[0..] == ss;
    }
  }

  /** The loop of `node_add_child`: the last of a non-empty list of siblings. */
  method LastSibling(first: Node, ghost ss: seq<Shape>, ghost ts: seq<Tree>) returns (nn: Node)
    requires ss != [] && Linked(first, ss, ts) && Distinct(ss)
    ensures |ss| == |ts|
    ensures var k := |ss| - 1; Segment(first, ss[..k], ts[..k], nn) && Linked(nn, ss[k..], ts[k..]) && nn.sibling == null
  {
    hide Distinct;
    nn := first;
    ghost var i := 0;
    assert ss[0..] == ss && ts[0..] == ts && ss[..0] == [] && ts[..0] == [];
    while nn.sibling != null
      invariant i < |ss| && i < |ts|
      invariant Segment(first, ss[..i], ts[..i], nn) && Linked(nn, ss[i..], ts[i..])
      decreases |ss| - i
    {
      assert ss[i..][1..] == ss[i + 1..] && ts[i..][1..] == ts[i + 1..];
      assert Segment(nn, [ss[i]], [ts[i]], nn.sibling);
      SegmentThenSegment(first, ss[..i], ts[..i], nn, [ss[i]], [ts[i]], nn.sibling);
      assert ss[..i] + [ss[i]] == ss[..i + 1] && ts[..i] + [ts[i]] == ts[..i + 1];
      nn := nn.sibling;
      i := i + 1;
    }
    assert ss[i..][1..] == [] && ts[i..][1..] == [];
  }

  // ---- blocks under construction -------------------------------------------------------

  /** Node `b` is an open block whose statements so far are the trees `ts`. */
  ghost predicate BlockOk(b: Node, ss: seq<Shape>, ts: seq<Tree>)
    reads b, NodesOf(ss)
  {
    b.op.Passthrough? && b.sibling == null && b !in NodesOf(ss) && Linked(b.child, ss, ts) && Distinct(ss)
  }

  /** `node_add_child`: `n`, with its own subtree, becomes the last child of `parent`. */
  method AddChild(parent: Node, n: Node, ghost ss: seq<Shape>, ghost ts: seq<Tree>, ghost sh: Shape, ghost t: Tree)
    requires parent !in NodesOf(ss) && Linked(parent.child, ss, ts) && Distinct(ss)
    requires Linked(n, [sh], [t]) && Distinct([sh]) && NodesOf([sh]) !! NodesOf(ss) && parent !in NodesOf([sh])
    modifies parent`child, NodesOf(ss)`sibling
    ensures Linked(parent.child, ss + [sh], ts + [t]) && Distinct(ss + [sh]) && NodesOf(ss + [sh]) == NodesOf(ss) + NodesOf([sh])
    ensures Segment(parent.child, ss, ts, n)
  {
    NodesAllocated(ss);
    NodesAllocated([sh]);
    DistinctAppend(ss, [sh]);
    NodesAppend(ss, [sh]);
    if parent.child == null {
      parent.child := n;
      assert ss + [sh] == [sh] && ts + [t] == [t];
    } else {
      var nn := LastSibling(parent.child, ss, ts);
      SetLast(parent.child, nn, n, ss, ts, sh, t);
    }
  }

  method SetLast(first: Node, nn: Node, n: Node, ghost ss: seq<Shape>, ghost ts: seq<Tree>, ghost sh: Shape, ghost t: Tree)
    requires ss != [] && |ss| == |ts| && Distinct(ss) && NodesOf([sh]) !! NodesOf(ss) && Linked(n, [sh], [t])
    requires var k := |ss| - 1; Segment(first, ss[..k], ts[..k], nn) && Linked(nn, ss[k..], ts[k..]) && nn.sibling == null
    modifies NodesOf(ss)`sibling
    ensures Linked(first, ss + [sh], ts + [t]) && Segment(first, ss, ts, n)
  {
    hide Distinct;
    ghost var k := |ss| - 1;
    ghost var a, ta, s, st := ss[..k], ts[..k], ss[k], ts[k];
    SplitApart(ss, k);
    NodesAllocated(ss);
    NodesAllocated([sh]);
    assert ss[k..] == [s] && ts[k..] == [st] && nn == s.node;
    assert nn !in NodesOf(s.kids) by { LastApart(ss); }
    nn.sibling := n;
    assert Segment(first, a, ta, nn);
    assert Linked(nn.child, s.kids, st.kids);
    assert Linked(n, [sh], [t]);
    var two, ttwo := [s, sh], [st, t];
    assert two[1..] == [sh] && ttwo[1..] == [t];
    assert Linked(nn, two, ttwo);
    SegmentThenLinked(first, a, ta, nn, two, ttwo);
    SnocTwo(ss, sh);
    SnocTwo(ts, t);
    assert Segment(nn, [s], [st], n);
    SegmentThenSegment(first, a, ta, nn, [s], [st], n);
  }

  lemma SnocTwo<T>(xs: seq<T>, x: T)
    requires xs != []
    ensures xs[..|xs| - 1] + [xs[|xs| - 1], x] == xs + [x] && xs[..|xs| - 1] + [xs[|xs| - 1]] == xs
  {
  }

  lemma {:induction false} LastApart(ss: seq<Shape>)
    requires ss != [] && Distinct(ss)
    ensures var s := ss[|ss| - 1]; s.node !in NodesOf(s.kids)
    decreases |ss|
  {
    if |ss| > 1 {
      LastApart(ss[1..]);
    }
  }

  /** One node with its children, as a list of one. */
  lemma SingleNode(n: Node, kids: seq<Shape>, kts: seq<Tree>)
    requires n.sibling == null && Linked(n.child, kids, kts) && n !in NodesOf(kids) && Distinct(kids)
    ensures
      var one := [Shape(n, kids)];
      Linked(n, one, [Tree(n.op, kts)]) && NodesOf(one) == {n} + NodesOf(kids) && Distinct(one)
  {
    var one, t := [Shape(n, kids)], [Tree(n.op, kts)];
    assert one[1..] == [] && t[1..] == [];
  }

  lemma NoNodes()
    ensures NodesOf([]) == {} && Distinct([]) && Linked(null, [], [])
  {
  }

  /** Nodes nothing was evaluated on yet. */
  ghost predicate Unused(nodes: set<Node>)
    reads nodes
  {
    forall n :: n in nodes ==> n.prevMatch == null
  }

  class Parser {
    var rootnode: Node?
    var curblock: Node?

    constructor ()
      ensures rootnode == null && curblock == null
    {
      rootnode, curblock := null, null;
    }

    /** The action at '{'. */
    method OpenBlock()
      modifies this
      ensures curblock != null && fresh(curblock) && curblock.parent == old(curblock)
      ensures BlockOk(curblock, [], []) && curblock.prevMatch == null
      ensures rootnode == if old(rootnode) == null then curblock else old(rootnode)
    {
      var b := new Node(Passthrough);
      if curblock != null {
        b.parent := curblock;
      }
      curblock := b;
      if rootnode == null {
        rootnode := b;
      }
    }

    /** ADD_NODE. */
    method AddNode(op: Op, ghost ss: seq<Shape>, ghost ts: seq<Tree>) returns (ghost sh: Shape)
      requires curblock != null && BlockOk(curblock, ss, ts)
      modifies curblock`child, NodesOf(ss)`sibling
      ensures fresh(sh.node) && sh.kids == [] && sh.node.prevMatch == null
      ensures BlockOk(curblock, ss + [sh], ts + [Tree(op, [])])
    {
      NodesAllocated(ss);
      var n := new Node(op);
      sh := Shape(n, []);
      SingleNode(n, [], []);
      AddChild(curblock, n, ss, ts, sh, Tree(op, []));
    }

    /** ADD_NODE_WPARENT: the finished block becomes the child of a new node in the enclosing block. */
    method AddNodeWithParent(op: Op, ghost ss: seq<Shape>, ghost ts: seq<Tree>, ghost bs: seq<Shape>, ghost bt: seq<Tree>)
      returns (ghost sh: Shape)
      requires curblock != null && BlockOk(curblock, bs, bt)
      requires curblock.parent != null && curblock.parent != curblock && BlockOk(curblock.parent, ss, ts)
      requires NodesOf(bs) !! NodesOf(ss) && curblock !in NodesOf(ss) && curblock.parent !in NodesOf(bs)
      modifies this`curblock, curblock.parent`child, NodesOf(ss)`sibling
      ensures curblock == old(curblock.parent)
      ensures fresh(sh.node) && sh.kids == [Shape(old(curblock), bs)] && sh.node.prevMatch == null
      ensures BlockOk(curblock, ss + [sh], ts + [Tree(op, [Tree(Passthrough, bt)])])
    {
      NodesAllocated(ss);
      NodesAllocated(bs);
      hide NodesOf, Distinct, Linked, Segment;
      NoNodes();
      ghost var parent, block := curblock.parent, curblock;
      ghost var b, t := Shape(curblock, bs), Tree(Passthrough, bt);
      var n := new Node(op);
      SingleNode(n, [], []);
      AddChild(curblock.parent, n, ss, ts, Shape(n, []), Tree(op, []));
      SingleNode(curblock, bs, bt);
      AddChild(n, curblock, [], [], b, t);
      assert [] + [b] == [b] && [] + [t] == [t];
      sh := Shape(n, [b]);
      SingleNode(n, [b], [t]);
      SegmentThenLinked(parent.child, ss, ts, n, [sh], [Tree(op, [t])]);
      NodesAppend(ss, [sh]);
      DistinctAppend(ss, [sh]);
      curblock := curblock.parent;
    }

    /** `block`: the opening brace, then the statements. */
    method ParseBlock(body: seq<Stmt>) returns (ghost ss: seq<Shape>)
      modifies this
      ensures curblock != null && fresh(curblock) && curblock.parent == old(curblock)
      ensures BlockOk(curblock, ss, Compile(body)) && fresh(NodesOf(ss)) && Unused({curblock} + NodesOf(ss))
      ensures rootnode == if old(rootnode) == null then curblock else old(rootnode)
      decreases body, 2
    {
      hide NodesOf, Distinct, Linked, Compile;
      NoNodes();
      OpenBlock();
      ss := ParseStatements(body);
    }

    /** `rule_statements`, for a block just opened. */
    method ParseStatements(stmts: seq<Stmt>) returns (ghost ss: seq<Shape>)
      requires curblock != null && rootnode != null && BlockOk(curblock, [], [])
      modifies this, curblock`child
      ensures curblock == old(curblock) && rootnode == old(rootnode)
      ensures BlockOk(curblock, ss, Compile(stmts)) && fresh(NodesOf(ss)) && Unused(NodesOf(ss))
      decreases stmts, 1
    {
      hide NodesOf, Distinct, Linked, Compile;
      NoNodes();
      CompileNone();
      ss := [];
      assert stmts[..0] == [];
      for i := 0 to |stmts|
        invariant curblock == old(curblock) && rootnode == old(rootnode)
        invariant BlockOk(curblock, ss, Compile(stmts[..i])) && fresh(NodesOf(ss)) && Unused(NodesOf(ss))
      {
        NodesAllocated(ss);
        ghost var sh := ParseStatement(stmts[i], ss, Compile(stmts[..i]));
        NodesAppend(ss, [sh]);
        CompileSnoc(stmts, i);
        ss := ss + [sh];
      }
      assert stmts[..|stmts|] == stmts;
    }

    /** `rule_statement`: a block statement is reduced after its block. */
    method ParseStatement(s: Stmt, ghost ss: seq<Shape>, ghost ts: seq<Tree>) returns (ghost sh: Shape)
      requires curblock != null && rootnode != null && BlockOk(curblock, ss, ts) && Unused(NodesOf(ss))
      modifies this, curblock`child, NodesOf(ss)`sibling
      ensures curblock == old(curblock) && rootnode == old(rootnode)
      ensures BlockOk(curblock, ss + [sh], ts + [CompileStmt(s)])
      ensures fresh(NodesOf([sh])) && Unused(NodesOf([sh]))
      decreases s, 0
    {
      match s {
        case WriteStmt(fmt, dest) => sh := AddNode(Write(fmt, dest), ss, ts); LeafNodes(sh);
        case AssignStmt(variable, fmt) => sh := AddNode(Assign(variable, fmt), ss, ts); LeafNodes(sh);
        case BreakStmt => sh := AddNode(Break, ss, ts); LeafNodes(sh);
        case TestStmt(test, body) => sh := ParseBlockStatement(TestOp(test), body, ss, ts);
        case ElseStmt(body) => sh := ParseBlockStatement(Else, body, ss, ts);
      }
    }

    /** `match_block` and `else_block`. */
    method ParseBlockStatement(op: Op, body: seq<Stmt>, ghost ss: seq<Shape>, ghost ts: seq<Tree>) returns (ghost sh: Shape)
      requires curblock != null && rootnode != null && BlockOk(curblock, ss, ts)
      modifies this, curblock`child, NodesOf(ss)`sibling
      ensures curblock == old(curblock) && rootnode == old(rootnode)
      ensures BlockOk(curblock, ss + [sh], ts + [Tree(op, [CompileBlock(body)])])
      ensures fresh(NodesOf([sh])) && Unused(NodesOf([sh]))
      decreases body, 3
    {
      hide NodesOf, Distinct, Linked, Compile;
      NodesAllocated(ss);
      ghost var bs := ParseBlock(body);
      NodesAllocated(bs);
      ghost var block := curblock;
      sh := AddNodeWithParent(op, ss, ts, bs, Compile(body));
      BlockNodes(sh, block, bs);
    }
  }

  lemma CompileNone()
    ensures Compile([]) == []
  {
  }

  lemma CompileSnoc(stmts: seq<Stmt>, i: nat)
    requires i < |stmts|
    ensures Compile(stmts[..i + 1]) == Compile(stmts[..i]) + [CompileStmt(stmts[i])]
  {
    CompileAppend(stmts[..i], [stmts[i]]);
    assert stmts[..i] + [stmts[i]] == stmts[..i + 1];
    assert Compile([stmts[i]]) == [CompileStmt(stmts[i])];
  }

  lemma LeafNodes(sh: Shape)
    requires sh.kids == []
    ensures NodesOf([sh]) == {sh.node}
  {
  }

  lemma BlockNodes(sh: Shape, block: Node, bs: seq<Shape>)
    requires sh.kids == [Shape(block, bs)]
    ensures NodesOf([sh]) == {sh.node, block} + NodesOf(bs)
  {
    var kids := [Shape(block, bs)];
    assert kids[1..] == [] && NodesOf(kids) == {block} + NodesOf(bs) + NodesOf([]);
    assert [sh][1..] == [];
  }
}
