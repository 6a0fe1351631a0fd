/**
 * The evaluator of `node.c` on linked nodes, with its save-and-restore of the
 * capture pointer, proved to do what `RuleModel.Eval` does on the tree.
 */
module RuleEval {
  import opened Options
  import opened RuleModel

  class Node {
    var child: Node?
    var sibling: Node?
    var parent: Node?
    var op: Op
    var prevMatch: Node?       // the saved capture pointer
    var curMatch: seq<string>  // this node's own captures

    /** `calloc`, then the type and its data. */
    constructor (op: Op)
      ensures child == null && sibling == null && parent == null && prevMatch == null && curMatch == [] && this.op == op
    {
      child, sibling, parent, prevMatch, curMatch := null, null, null, null, [];
      this.op := op;
    }
  }

  /** The nodes of a sibling list, each with its children. */
  datatype Shape = Shape(node: Node, kids: seq<Shape>)

  ghost function NodesOf(ss: seq<Shape>): set<Node> {
    if ss == [] then {} else {ss[0].node} + NodesOf(ss[0].kids) + NodesOf(ss[1..])
  }

  /** The nodes of an existing shape exist. */
  lemma {:induction false} NodesAllocated(ss: seq<Shape>)
    ensures forall n :: n in NodesOf(ss) ==> allocated(n)
  {
    if ss != [] {
      NodesAllocated(ss[0].kids);
      NodesAllocated(ss[1..]);
    }
  }

  /** No node occurs twice. */
  ghost predicate Distinct(ss: seq<Shape>) {
    ss != [] ==>
      && ss[0].node !in NodesOf(ss[0].kids) && ss[0].node !in NodesOf(ss[1..])
      && NodesOf(ss[0].kids) !! NodesOf(ss[1..])
      && Distinct(ss[0].kids) && Distinct(ss[1..])
  }

  /** Starting at `n`, the child and sibling pointers spell out the trees `ts`. */
  ghost predicate Linked(n: Node?, ss: seq<Shape>, ts: seq<Tree>)
    reads NodesOf(ss)`child, NodesOf(ss)`sibling, NodesOf(ss)`op
    decreases ss
  {
    if ss == [] then n == null && ts == []
    else
      ts != [] && n == ss[0].node && n.op == ts[0].op
      && Linked(n.child, ss[0].kids, ts[0].kids) && Linked(n.sibling, ss[1..], ts[1..])
  }

  /** A matchall node never saves a capture pointer: the field is as `calloc` left it. */
  ghost predicate Unsaved(nodes: set<Node>)
    reads nodes`op, nodes`prevMatch
  {
    forall n :: n in nodes && n.op.MatchAll? ==> n.prevMatch == null
  }

  /** `struct exec_ctx`, with the variables and the lines handed to the writer. */
  class Exec {
    const ctx: Context
    var reMatch: Node?
    var vars: map<string, string>
    var writes: seq<(string, string)>

    constructor (ctx: Context, w: World)
      ensures this.ctx == ctx && TheWorld() == w && reMatch == null
    {
      this.ctx, vars, writes, reMatch := ctx, w.vars, w.writes, null;
    }

    function Caps(): Captures
      reads this, reMatch
    {
      if reMatch == null then None else Some(reMatch.curMatch)
    }

    function TheWorld(): World
      reads this
    {
      World(vars, writes)
    }

    /** The loop of `strpartial_resolve`, appending part after part. */
    method ResolveParts(parts: seq<Part>) returns (r: Resolved)
      ensures r == Resolve(parts, vars, Caps(), ctx)
    {
      var str := "";
      var i := 0;
      while i < |parts|
        invariant 0 <= i <= |parts|
        invariant Resolve(parts, vars, Caps(), ctx) == Prefixed(str, Resolve(parts[i..], vars, Caps(), ctx))
      {
        assert parts[i..][0] == parts[i] && parts[i..][1..] == parts[i + 1..];
        match ResolvePart(parts[i], vars, Caps(), ctx) {
          case Unresolved => return Unresolved;
          case Crash => return Crash;
          case Text(t) =>
            ghost var rest := Resolve(parts[i + 1..], vars, Caps(), ctx);
            assert rest.Text? ==> (str + t) + rest.text == str + (t + rest.text);
            str := str + t;
        }
        i := i + 1;
      }
      assert str + "" == str;
      return Text(str);
    }

    /** The handlers; None is a crash. */
    method RunHandler(n: Node, prev: Result) returns (r: Option<Result>)
      requires n != reMatch
      modifies this, n`prevMatch, n`curMatch
      ensures
        match Handle(n.op, prev, old(Caps()), old(TheWorld()), ctx)
        case Fault => r.None? && TheWorld() == old(TheWorld())
        case Handled(res, w, caps) => r == Some(res) && TheWorld() == w && Caps() == caps
      ensures reMatch == if n.op.Match? && r == Some(True) then n else old(reMatch)
      ensures n.prevMatch == if n.op.Match? && r.Some? then old(reMatch) else old(n.prevMatch)
    {
      match n.op {
        case Passthrough => r := Some(True);
        case Break => r := Some(Stop);
        case Else => r := Some(if prev.False? then True else False);
        case MatchAll(only) => r := Some(if SameSource(only, ctx.source) then True else False);
        case Write(fmt, dest) =>
          var val := ResolveParts(fmt);
          if val.Crash? {
            return None;
          }
          if val.Text? {
            writes := writes + [(dest, val.text)];
          }
          r := Some(True);
        case Assign(variable, fmt) =>
          var val := ResolveParts(fmt);
          if val.Crash? {
            return None;
          }
          if val.Text? {
            vars := vars[variable := val.text];
          }
          r := Some(if val.Text? then True else Error);
        case Match(re, target, from) => r := MatchHandler(n, re, target, from);
      }
    }

    /** `_eval_node_match`. */
    method MatchHandler(n: Node, re: seq<Part>, target: seq<Part>, from: Option<string>) returns (r: Option<Result>)
      requires n != reMatch && n.op == Match(re, target, from)
      modifies this`reMatch, n`prevMatch, n`curMatch
      ensures
        match Handle(n.op, True, old(Caps()), old(TheWorld()), ctx)
        case Fault => r.None?
        case Handled(res, w, caps) => r == Some(res) && TheWorld() == w && Caps() == caps
      ensures reMatch == if r == Some(True) then n else old(reMatch)
      ensures r.Some? ==> n.prevMatch == old(reMatch)
      ensures r.None? ==> n.prevMatch == old(n.prevMatch)
    {
      hide Resolve;
      var re' := ResolveParts(re);
      var t := ResolveParts(target);
      if re'.Crash? || t.Crash? {
        return None;
      }
      n.prevMatch := reMatch;
      if re'.Unresolved? || t.Unresolved? {
        return Some(Error);
      }
      if from.Some? && !SameSource(from.value, ctx.source) {
        return Some(False);
      }
      n.curMatch := [];
      match ctx.strMatch(t.text, re'.text) {
        case Erroneous => r := Some(Error);
        case NoMatch => r := Some(False);
        case Groups(subject, captures) =>
          n.curMatch := [subject] + captures;
          reMatch := n;
          r := Some(True);
      }
    }
  }

  /** The result and the state left by an evaluation are those of `o`. */
  ghost predicate Left(x: Exec, r: Option<Result>, o: Outcome)
    reads x, x.reMatch
  {
    match o
    case Crashed(w) => r.None? && x.TheWorld() == w
    case Ended(res, w, caps) => r == Some(res) && x.TheWorld() == w && x.Caps() == caps
  }

  /** `_eval_node`: the handler, the children, the clean-up, the siblings. */
  method EvalNode(n: Node, x: Exec, prev: Result, ghost ss: seq<Shape>, ghost ts: seq<Tree>) returns (r: Option<Result>)
    requires ss != [] && ts != [] && Linked(n, ss, ts) && Distinct(ss) && Shaped(ts) && Unsaved(NodesOf(ss))
    requires x.reMatch !in NodesOf(ss)
    modifies x, NodesOf(ss)`prevMatch, NodesOf(ss)`curMatch
    ensures Unsaved(NodesOf(ss))
    ensures Left(x, r, Eval(ts, prev, old(x.Caps()), old(x.TheWorld()), x.ctx))
    ensures r.Some? ==> x.reMatch == null || x.reMatch == old(x.reMatch)
    decreases ts, 2
  {
    hide Handle, Resolve, NodesOf, Distinct, Linked, Shaped, Unsaved;
    ghost var entry := x.reMatch;
    NodesAllocated(ss);
    TakeApart(n, ss, ts);
    r := x.RunHandler(n, prev);
    if r.Some? && !r.value.Stop? && !r.value.Error? {
      r := EvalBelow(n, x, r.value, entry, ss, ts);
    }
    if r.Some? {
      DropMatch(n);
    }
    JoinUnsaved(n, ss);
  }

  /** The part of `_eval_node` between the handler and `end:`. */
  method EvalBelow(n: Node, x: Exec, topr: Result, ghost entry: Node?, ghost ss: seq<Shape>, ghost ts: seq<Tree>)
    returns (r: Option<Result>)
    requires ss != [] && ts != [] && Apart(n, ss, ts) && entry !in NodesOf(ss)
    requires if n.op.Match? && topr.True? then n.prevMatch == entry && x.reMatch == n else x.reMatch == entry
    modifies x, n`curMatch, (NodesOf(ss) - {n})`prevMatch, (NodesOf(ss) - {n})`curMatch
    ensures Unsaved(NodesOf(ss[0].kids)) && Unsaved(NodesOf(ss[1..]))
    ensures Left(x, r, Below(ts, topr, old(CapsAt(entry)), old(x.Caps()), old(x.TheWorld()), x.ctx))
    ensures r.Some? ==> x.reMatch == null || x.reMatch == entry
    decreases ts, 1
  {
    NodesAllocated(ss);
    hide Handle, Resolve, NodesOf, Distinct, Linked, Shaped, Unsaved, Eval;
    if topr.True? && n.child != null {
      var inner := EvalChildren(n, x, topr, entry, ss[0].kids, ts[0].kids);
      if inner.None? {
        return None;
      }
      if inner.value.Stop? || inner.value.Error? {
        return Some(topr);
      }
    }
    if n.sibling != null {
      r := EvalNode(n.sibling, x, topr, ss[1..], ts[1..]);
      if r.None? {
        return;
      }
    }
    return Some(topr);
  }

  /** What `Eval` does after a handler that did not stop. */
  function Below(ts: seq<Tree>, topr: Result, entry: Captures, caps: Captures, w: World, ctx: Context): Outcome
    requires ts != []
  {
    if topr.True? && ts[0].kids != [] then
      match Eval(ts[0].kids, topr, caps, w, ctx)
      case Crashed(w2) => Crashed(w2)
      case Ended(inner, w2, caps2) =>
        var caps3 := OutOfScope(ts[0].op, entry, caps2);
        if Stops(inner) then Ended(topr, w2, caps3) else EvalRest(ts[1..], topr, caps3, w2, ctx)
    else EvalRest(ts[1..], topr, caps, w, ctx)
  }

  /** The captures a pointer gives access to. */
  ghost function CapsAt(p: Node?): Captures
    reads p
  {
    if p == null then None else Some(p.curMatch)
  }

  /** The children of `n`, then its `node_cleanup`; `entry` is the capture pointer before its handler ran. */
  method EvalChildren(n: Node, x: Exec, topr: Result, ghost entry: Node?, ghost kids: seq<Shape>, ghost kts: seq<Tree>)
    returns (inner: Option<Result>)
    requires n.child != null && kids != [] && kts != [] && n !in NodesOf(kids)
    requires Linked(n.child, kids, kts) && Distinct(kids) && Shaped(kts) && Unsaved(NodesOf(kids))
    requires entry != n && entry !in NodesOf(kids)
    requires if n.op.Match? then n.prevMatch == entry && x.reMatch == n else x.reMatch == entry
    requires n.op.MatchAll? ==> n.prevMatch == null
    modifies x, n`curMatch, NodesOf(kids)`prevMatch, NodesOf(kids)`curMatch
    ensures Unsaved(NodesOf(kids))
    ensures
      match Eval(kts, topr, old(x.Caps()), old(x.TheWorld()), x.ctx)
      case Crashed(w) => inner.None? && x.TheWorld() == w
      case Ended(res, w, caps) =>
        inner == Some(res) && x.TheWorld() == w && x.Caps() == OutOfScope(n.op, old(CapsAt(entry)), caps)
    ensures inner.Some? ==> x.reMatch == null || x.reMatch == entry
    decreases kts, 3
  {
    NodesAllocated(kids);
    hide Handle, Resolve, NodesOf, Distinct, Linked, Shaped, Eval, Unsaved;
    inner := EvalNode(n.child, x, topr, kids, kts);
    if inner.Some? && (n.op.Match? || n.op.MatchAll?) {
      x.reMatch := n.prevMatch;
      n.curMatch := [];
    }
  }

  /** A linked list of nodes, seen as its first node, that node's children, and the later siblings. */
  ghost predicate Apart(n: Node, ss: seq<Shape>, ts: seq<Tree>)
    requires ss != [] && ts != []
    reads NodesOf(ss), n
  {
    var kids, rest := ss[0].kids, ss[1..];
    && ss[0].node == n && NodesOf(ss) == {n} + NodesOf(kids) + NodesOf(rest)
    && n !in NodesOf(kids) && n !in NodesOf(rest) && NodesOf(kids) !! NodesOf(rest)
    && Distinct(kids) && Distinct(rest) && Unsaved(NodesOf(kids)) && Unsaved(NodesOf(rest))
    && Linked(n.child, kids, ts[0].kids) && Linked(n.sibling, rest, ts[1..])
    && (n.child == null <==> ts[0].kids == []) && (kids == [] <==> ts[0].kids == [])
    && (n.sibling == null <==> ts[1..] == []) && (rest == [] <==> ts[1..] == [])
    && n.op == ts[0].op && Shaped(ts[0].kids) && Shaped(ts[1..]) && (n.op.Match? ==> n.child != null)
    && (n.op.MatchAll? ==> n.prevMatch == null)
  }

  lemma TakeApart(n: Node, ss: seq<Shape>, ts: seq<Tree>)
    requires ss != [] && ts != [] && Linked(n, ss, ts) && Distinct(ss) && Shaped(ts) && Unsaved(NodesOf(ss))
    ensures Apart(n, ss, ts)
  {
    assert ts[0] in ts;
  }

  lemma JoinUnsaved(n: Node, ss: seq<Shape>)
    requires ss != [] && ss[0].node == n && Unsaved(NodesOf(ss[0].kids)) && Unsaved(NodesOf(ss[1..]))
    requires n.op.MatchAll? ==> n.prevMatch == null
    ensures Unsaved(NodesOf(ss))
  {
  }

  /** `_del_block_match`. */
  method DropMatch(n: Node)
    modifies n`curMatch
    ensures n.curMatch == if n.op.Match? then [] else old(n.curMatch)
  {
    if n.op.Match? {
      n.curMatch := [];
    }
  }

  function Prefixed(str: string, r: Resolved): Resolved {
    if r.Text? then Text(str + r.text) else r
  }
}
