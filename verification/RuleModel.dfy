/**
 * The rule language on values: string templates, the node tree with the
 * evaluator's exact behaviour, and the statements of the grammar with the
 * tree they become.
 */
module RuleModel {
  import opened Options

  // ---- templates ----------------------------------------------------------------

  datatype Part =
    | Invalid
    | Verbatim(text: string)
    | Var(name: string)
    | Env(name: string)
    | Capture(number: int)
    | DateTime
    | FractSecond
    | DateTimeFract
    | Source
    | LogLine

  /** The answer of `str_match`; a match always has the subject itself as its first string. */
  datatype MatchReply = Erroneous | NoMatch | Groups(subject: string, captures: seq<string>)

  /** What one evaluation is given: the line, its source, the clock, the environment, the matcher. */
  datatype Context = Context(
    line: string, source: string, datetime: string, fract: string, shortFract: string,
    getenv: string -> string,
    strMatch: (string, string) -> MatchReply)

  /** The strings of the innermost match; None is the NULL `re_match`. */
  type Captures = Option<seq<string>>

  datatype Resolved = Text(text: string) | Unresolved | Crash

  /** One part; reading a capture through a NULL pointer, or at a negative index, is a crash. */
  function ResolvePart(part: Part, vars: map<string, string>, caps: Captures, ctx: Context): Resolved {
    match part
    case Invalid => Unresolved
    case Verbatim(text) => Text(text)
    case Var(name) => Text(if name in vars then vars[name] else "")
    case Env(name) => Text(ctx.getenv(name))
    case Capture(number) =>
      if caps.None? then Crash
      else if |caps.value| > number then (if number < 0 then Crash else Text(caps.value[number]))
      else Text("")
    case DateTime => Text(ctx.datetime)
    case FractSecond => Text(ctx.fract)
    case DateTimeFract => Text(ctx.datetime + "." + ctx.shortFract)
    case Source => Text(ctx.source)
    case LogLine => Text(ctx.line)
  }

  /** A template is the concatenation of its parts; the first part that fails decides. */
  function Resolve(parts: seq<Part>, vars: map<string, string>, caps: Captures, ctx: Context): Resolved {
    if parts == [] then Text("")
    else
      match ResolvePart(parts[0], vars, caps, ctx)
      case Unresolved => Unresolved
      case Crash => Crash
      case Text(t) =>
        match Resolve(parts[1..], vars, caps, ctx)
        case Unresolved => Unresolved
        case Crash => Crash
        case Text(u) => Text(t + u)
  }

  /** `dynstr_cmp` says equal: the shorter string is a prefix of the longer. */
  predicate SameSource(a: string, b: string) {
    a <= b || b <= a
  }

  // ---- the node tree ----------------------------------------------------------------

  datatype Op =
    | Passthrough
    | Write(fmt: seq<Part>, dest: string)
    | Assign(variable: string, fmt: seq<Part>)
    | Break
    | Match(re: seq<Part>, target: seq<Part>, from: Option<string>)
    | MatchAll(only: string)
    | Else

  /** A node and its children, siblings in order. */
  datatype Tree = Tree(op: Op, kids: seq<Tree>)

  datatype Result = True | False | Stop | Error

  /** Variables and the lines written so far. */
  datatype World = World(vars: map<string, string>, writes: seq<(string, string)>)

  datatype Handled = Fault | Handled(res: Result, world: World, caps: Captures)

  /** The `_eval_node_*` handler of a node. */
  function Handle(op: Op, prev: Result, caps: Captures, w: World, ctx: Context): Handled {
    match op
    case Passthrough => Handled(True, w, caps)
    case Break => Handled(Stop, w, caps)
    case Else => Handled(if prev.False? then True else False, w, caps)
    case MatchAll(only) => Handled(if SameSource(only, ctx.source) then True else False, w, caps)
    case Write(fmt, dest) =>
      (match Resolve(fmt, w.vars, caps, ctx)
       case Crash => Fault
       case Unresolved => Handled(True, w, caps)
       case Text(t) => Handled(True, w.(writes := w.writes + [(dest, t)]), caps))
    case Assign(variable, fmt) =>
      (match Resolve(fmt, w.vars, caps, ctx)
       case Crash => Fault
       case Unresolved => Handled(Error, w, caps)
       case Text(t) => Handled(True, w.(vars := w.vars[variable := t]), caps))
    case Match(re, target, from) =>
      match (Resolve(re, w.vars, caps, ctx), Resolve(target, w.vars, caps, ctx))
      case (Text(r), Text(t)) =>
        if from.Some? && !SameSource(from.value, ctx.source) then Handled(False, w, caps)
        else
          (match ctx.strMatch(t, r)
           case Erroneous => Handled(Error, w, caps)
           case NoMatch => Handled(False, w, caps)
           case Groups(subject, captures) => Handled(True, w, Some([subject] + captures)))
      case (re', target') => if re'.Crash? || target'.Crash? then Fault else Handled(Error, w, caps)
  }

  /** The captures after a node's children ran: `_match_outofscope`, whose saved pointer a matchall never set. */
  function OutOfScope(op: Op, entry: Captures, inner: Captures): Captures {
    match op
    case Match(_, _, _) => entry
    case MatchAll(_) => None
    case _ => inner
  }

  datatype Outcome = Crashed(world: World) | Ended(res: Result, world: World, caps: Captures)

  predicate Stops(r: Result) {
    r.Stop? || r.Error?
  }

  /** `_eval_node` on a node and its later siblings; `res` is the result of that first node. */
  function Eval(nodes: seq<Tree>, prev: Result, caps: Captures, w: World, ctx: Context): Outcome
    requires nodes != []
    decreases nodes, 0
  {
    match Handle(nodes[0].op, prev, caps, w, ctx)
    case Fault => Crashed(w)
    case Handled(res, w1, caps1) =>
      if Stops(res) then Ended(res, w1, caps1)
      else if res.True? && nodes[0].kids != [] then
        match Eval(nodes[0].kids, res, caps1, w1, ctx)
        case Crashed(w2) => Crashed(w2)
        case Ended(inner, w2, caps2) =>
          var caps3 := OutOfScope(nodes[0].op, caps, caps2);
          if Stops(inner) then Ended(res, w2, caps3) else EvalRest(nodes[1..], res, caps3, w2, ctx)
      else EvalRest(nodes[1..], res, caps1, w1, ctx)
  }

  function EvalRest(nodes: seq<Tree>, res: Result, caps: Captures, w: World, ctx: Context): Outcome
    decreases nodes, 1
  {
    if nodes == [] then Ended(res, w, caps)
    else
      match Eval(nodes, res, caps, w, ctx)
      case Crashed(w') => Crashed(w')
      case Ended(_, w', caps') => Ended(res, w', caps')
  }

  /** Nodes the parser builds: a match always has a child. */
  predicate Shaped(nodes: seq<Tree>) {
    forall n <- nodes :: (n.op.Match? ==> n.kids != []) && Shaped(n.kids)
  }

  lemma HandleKeepsCaptures(op: Op, prev: Result, caps: Captures, w: World, ctx: Context)
    ensures var h := Handle(op, prev, caps, w, ctx); h.Handled? ==> h.caps == caps || (op.Match? && h.res.True?)
  {
  }

  /** The capture pointer ends as it began, or as NULL. */
  lemma {:induction false} CapturesKeptOrDropped(nodes: seq<Tree>, prev: Result, caps: Captures, w: World, ctx: Context)
    requires nodes != [] && Shaped(nodes)
    ensures var r := Eval(nodes, prev, caps, w, ctx); r.Ended? ==> r.caps == None || r.caps == caps
    decreases nodes
  {
    hide Handle;
    var n, rest := nodes[0], nodes[1..];
    assert n in nodes && Shaped(n.kids) && Shaped(rest);
    HandleKeepsCaptures(n.op, prev, caps, w, ctx);
    var h := Handle(n.op, prev, caps, w, ctx);
    if h.Handled? && !Stops(h.res) {
      if h.res.True? && n.kids != [] {
        CapturesKeptOrDropped(n.kids, h.res, h.caps, h.world, ctx);
        var inner := Eval(n.kids, h.res, h.caps, h.world, ctx);
        if inner.Ended? && rest != [] {
          CapturesKeptOrDropped(rest, h.res, OutOfScope(n.op, caps, inner.caps), inner.world, ctx);
        }
      } else if rest != [] {
        CapturesKeptOrDropped(rest, h.res, h.caps, h.world, ctx);
      }
    }
  }

  // ---- the statements of the grammar -------------------------------------------------

  /** The heads of `match_block`. */
  datatype Test =
    | OnMatch(re: seq<Part>, target: seq<Part>, from: Option<string>)
    | OnSource(only: string)

  datatype Stmt =
    | WriteStmt(fmt: seq<Part>, dest: string)
    | AssignStmt(variable: string, fmt: seq<Part>)
    | BreakStmt
    | TestStmt(test: Test, body: seq<Stmt>)
    | ElseStmt(body: seq<Stmt>)

  function TestOp(t: Test): Op {
    match t
    case OnMatch(re, target, from) => Match(re, target, from)
    case OnSource(only) => MatchAll(only)
  }

  /** The tree of a block: its opening brace becomes a pass-through node over the statements. */
  function CompileBlock(body: seq<Stmt>): Tree
    decreases body, 1
  {
    Tree(Passthrough, Compile(body))
  }

  function CompileStmt(s: Stmt): Tree
    decreases s, 2
  {
    match s
    case WriteStmt(fmt, dest) => Tree(Write(fmt, dest), [])
    case AssignStmt(variable, fmt) => Tree(Assign(variable, fmt), [])
    case BreakStmt => Tree(Break, [])
    case TestStmt(test, body) => Tree(TestOp(test), [CompileBlock(body)])
    case ElseStmt(body) => Tree(Else, [CompileBlock(body)])
  }

  function Compile(body: seq<Stmt>): (r: seq<Tree>)
    ensures |r| == |body|
    decreases body, 0
  {
    if body == [] then [] else [CompileStmt(body[0])] + Compile(body[1..])
  }

  lemma {:induction false} CompileAppend(a: seq<Stmt>, b: seq<Stmt>)
    ensures Compile(a + b) == Compile(a) + Compile(b)
    decreases |a|
  {
    if a == [] {
      assert a + b == b;
    } else {
      CompileAppend(a[1..], b);
      assert (a + b)[1..] == a[1..] + b && (a + b)[0] == a[0];
    }
  }
}
