/**
 * What rules mean when captures are lexically scoped, and that the evaluator,
 * which moves one capture pointer by save and restore, gives them that meaning.
 */
module RuleScoping {
  import opened Options
  import opened RuleModel

  // ---- the meaning of statements ---------------------------------------------------------

  /** Whether a test holds, and which captures its body then sees. */
  datatype Verdict = Faulty | Broken | No | Yes(caps: Captures)

  function Decide(t: Test, caps: Captures, w: World, ctx: Context): Verdict {
    match t
    case OnSource(only) => if SameSource(only, ctx.source) then Yes(caps) else No
    case OnMatch(re, target, from) =>
      var r, t := Resolve(re, w.vars, caps, ctx), Resolve(target, w.vars, caps, ctx);
      if r.Crash? || t.Crash? then Faulty
      else if r.Unresolved? || t.Unresolved? then Broken
      else if from.Some? && !SameSource(from.value, ctx.source) then No
      else
        match ctx.strMatch(t.text, r.text)
        case Erroneous => Broken
        case NoMatch => No
        case Groups(subject, captures) => Yes(Some([subject] + captures))
  }

  datatype Effect = Failed(world: World) | Fine(world: World)

  /**
   * A statement list under captures that nothing run before can change. A break, a failed
   * test or a failed assignment ends this list and no other. `skipped` says that the
   * statement before had a body and did not run it, which is when an else runs.
   */
  function RunBody(body: seq<Stmt>, skipped: bool, caps: Captures, w: World, ctx: Context): Effect {
    if body == [] then Fine(w)
    else
      var rest := body[1..];
      match body[0]
      case BreakStmt => Fine(w)
      case WriteStmt(fmt, dest) =>
        (match Resolve(fmt, w.vars, caps, ctx)
         case Crash => Failed(w)
         case Unresolved => RunBody(rest, false, caps, w, ctx)
         case Text(t) => RunBody(rest, false, caps, w.(writes := w.writes + [(dest, t)]), ctx))
      case AssignStmt(variable, fmt) =>
        (match Resolve(fmt, w.vars, caps, ctx)
         case Crash => Failed(w)
         case Unresolved => Fine(w)
         case Text(t) => RunBody(rest, false, caps, w.(vars := w.vars[variable := t]), ctx))
      case TestStmt(test, yes) =>
        (match Decide(test, caps, w, ctx)
         case Faulty => Failed(w)
         case Broken => Fine(w)
         case No => RunBody(rest, true, caps, w, ctx)
         case Yes(inner) =>
           var e := RunBody(yes, false, inner, w, ctx);
           if e.Failed? then e else RunBody(rest, false, caps, e.world, ctx))
      case ElseStmt(no) =>
        if !skipped then RunBody(rest, true, caps, w, ctx)
        else
          var e := RunBody(no, false, caps, w, ctx);
          if e.Failed? then e else RunBody(rest, false, caps, e.world, ctx)
  }

  // ---- the meaning of statements in the code ---------------------------------------------------

  /** How far a list got, and the captures the code is left with. */
  datatype Passage = Lost(world: World) | Through(world: World, caps: Captures)

  /**
   * The same, with the captures the code really has: a match puts back those it found, a matchall
   * that ran its body leaves none, and an else leaves those its body left.
   */
  function RunCode(body: seq<Stmt>, skipped: bool, caps: Captures, w: World, ctx: Context): Passage {
    if body == [] then Through(w, caps)
    else
      var rest := body[1..];
      match body[0]
      case BreakStmt => Through(w, caps)
      case WriteStmt(fmt, dest) =>
        (match Resolve(fmt, w.vars, caps, ctx)
         case Crash => Lost(w)
         case Unresolved => RunCode(rest, false, caps, w, ctx)
         case Text(t) => RunCode(rest, false, caps, w.(writes := w.writes + [(dest, t)]), ctx))
      case AssignStmt(variable, fmt) =>
        (match Resolve(fmt, w.vars, caps, ctx)
         case Crash => Lost(w)
         case Unresolved => Through(w, caps)
         case Text(t) => RunCode(rest, false, caps, w.(vars := w.vars[variable := t]), ctx))
      case TestStmt(test, yes) =>
        (match Decide(test, caps, w, ctx)
         case Faulty => Lost(w)
         case Broken => Through(w, caps)
         case No => RunCode(rest, true, caps, w, ctx)
         case Yes(inner) =>
           var p := RunCode(yes, false, inner, w, ctx);
           if p.Lost? then p else RunCode(rest, false, if test.OnMatch? then caps else None, p.world, ctx))
      case ElseStmt(no) =>
        if !skipped then RunCode(rest, true, caps, w, ctx)
        else
          var p := RunCode(no, false, caps, w, ctx);
          if p.Lost? then p else RunCode(rest, false, p.caps, p.world, ctx)
  }

  function AsOutcome(p: Passage, res: Result): Outcome {
    if p.Lost? then Crashed(p.world) else Ended(res, p.world, p.caps)
  }

  /** The tree of this list, reached with any result, captures and world, evaluates as the list runs. */
  ghost predicate TailRuns(body: seq<Stmt>, ctx: Context) {
    forall p: Result, caps, w :: EvalRest(Compile(body), p, caps, w, ctx) == AsOutcome(RunCode(body, p.False?, caps, w, ctx), p)
  }

  lemma BlockRuns(body: seq<Stmt>, caps: Captures, w: World, ctx: Context)
    requires EvalRest(Compile(body), True, caps, w, ctx) == AsOutcome(RunCode(body, false, caps, w, ctx), True)
    ensures Eval([CompileBlock(body)], True, caps, w, ctx) == AsOutcome(RunCode(body, false, caps, w, ctx), True)
  {
    var nodes := [CompileBlock(body)];
    assert nodes[1..] == [];
  }

  /** The handler of a test node decides as the test does. */
  lemma HandlerDecides(t: Test, prev: Result, caps: Captures, w: World, ctx: Context)
    ensures Handle(TestOp(t), prev, caps, w, ctx) ==
            match Decide(t, caps, w, ctx)
            case Faulty => Fault
            case Broken => Handled(Error, w, caps)
            case No => Handled(False, w, caps)
            case Yes(inner) => Handled(True, w, inner)
  {
  }

  lemma TestRuns(t: Test, yes: seq<Stmt>, rest: seq<Stmt>, prev: Result, caps: Captures, w: World, ctx: Context)
    requires TailRuns(yes, ctx) && TailRuns(rest, ctx)
    ensures EvalRest(Compile([TestStmt(t, yes)] + rest), prev, caps, w, ctx)
         == AsOutcome(RunCode([TestStmt(t, yes)] + rest, prev.False?, caps, w, ctx), prev)
  {
    hide Handle, Decide, Resolve;
    var body, node := [TestStmt(t, yes)] + rest, Tree(TestOp(t), [CompileBlock(yes)]);
    assert body[0] == TestStmt(t, yes) && body[1..] == rest && Compile(body) == [node] + Compile(rest);
    assert Compile(body)[1..] == Compile(rest);
    HandlerDecides(t, prev, caps, w, ctx);
    var d := Decide(t, caps, w, ctx);
    if d.Yes? {
      var p := RunCode(yes, false, d.caps, w, ctx);
      assert EvalRest(Compile(yes), True, d.caps, w, ctx) == AsOutcome(p, True);
      BlockRuns(yes, d.caps, w, ctx);
      var after := if t.OnMatch? then caps else None;
      assert EvalRest(Compile(rest), True, after, p.world, ctx) == AsOutcome(RunCode(rest, false, after, p.world, ctx), True);
    } else if d.No? {
      assert EvalRest(Compile(rest), False, caps, w, ctx) == AsOutcome(RunCode(rest, true, caps, w, ctx), False);
    }
  }

  lemma ElseRuns(no: seq<Stmt>, rest: seq<Stmt>, prev: Result, caps: Captures, w: World, ctx: Context)
    requires TailRuns(no, ctx) && TailRuns(rest, ctx)
    ensures EvalRest(Compile([ElseStmt(no)] + rest), prev, caps, w, ctx)
         == AsOutcome(RunCode([ElseStmt(no)] + rest, prev.False?, caps, w, ctx), prev)
  {
    hide Decide, Resolve;
    var body, node := [ElseStmt(no)] + rest, Tree(Else, [CompileBlock(no)]);
    assert body[0] == ElseStmt(no) && body[1..] == rest && Compile(body) == [node] + Compile(rest);
    assert Compile(body)[1..] == Compile(rest);
    if prev.False? {
      var p := RunCode(no, false, caps, w, ctx);
      assert EvalRest(Compile(no), True, caps, w, ctx) == AsOutcome(p, True);
      BlockRuns(no, caps, w, ctx);
      assert p.Through? ==> EvalRest(Compile(rest), True, p.caps, p.world, ctx) == AsOutcome(RunCode(rest, false, p.caps, p.world, ctx), True);
    } else {
      assert EvalRest(Compile(rest), False, caps, w, ctx) == AsOutcome(RunCode(rest, true, caps, w, ctx), False);
    }
  }

  /** Writes, assignments and break: a node without children. */
  lemma LeafRuns(s: Stmt, rest: seq<Stmt>, prev: Result, caps: Captures, w: World, ctx: Context)
    requires !s.TestStmt? && !s.ElseStmt? && TailRuns(rest, ctx)
    ensures EvalRest(Compile([s] + rest), prev, caps, w, ctx)
         == AsOutcome(RunCode([s] + rest, prev.False?, caps, w, ctx), prev)
  {
    hide Decide, Resolve;
    var body, node := [s] + rest, CompileStmt(s);
    assert body[0] == s && body[1..] == rest && Compile(body) == [node] + Compile(rest);
    assert Compile(body)[1..] == Compile(rest);
    var h := Handle(node.op, prev, caps, w, ctx);
    if h.Handled? && !Stops(h.res) {
      assert EvalRest(Compile(rest), True, caps, h.world, ctx) == AsOutcome(RunCode(rest, false, caps, h.world, ctx), True);
    }
  }

  /** Every statement list of the grammar: the evaluator on its tree does what the list does, captures included. */
  lemma {:induction false} TreeRunsBody(body: seq<Stmt>, ctx: Context)
    ensures TailRuns(body, ctx)
    decreases body
  {
    forall prev: Result, caps, w
      ensures EvalRest(Compile(body), prev, caps, w, ctx) == AsOutcome(RunCode(body, prev.False?, caps, w, ctx), prev)
    {
      if body != [] {
        hide Resolve, Handle, Eval, EvalRest, RunCode, Compile, TailRuns;
        var s, rest := body[0], body[1..];
        assert body == [s] + rest;
        TreeRunsBody(rest, ctx);
        match s {
          case TestStmt(test, yes) =>
            TreeRunsBody(yes, ctx);
            TestRuns(test, yes, rest, prev, caps, w, ctx);
          case ElseStmt(no) =>
            TreeRunsBody(no, ctx);
            ElseRuns(no, rest, prev, caps, w, ctx);
          case _ => LeafRuns(s, rest, prev, caps, w, ctx);
        }
      }
    }
  }

  /** A whole rule, from the root block. */
  lemma TreeRunsRule(body: seq<Stmt>, caps: Captures, w: World, ctx: Context)
    ensures Eval([CompileBlock(body)], True, caps, w, ctx) == AsOutcome(RunCode(body, false, caps, w, ctx), True)
  {
    TreeRunsBody(body, ctx);
    var prev: Result := True;
    assert EvalRest(Compile(body), prev, caps, w, ctx) == AsOutcome(RunCode(body, prev.False?, caps, w, ctx), prev);
    BlockRuns(body, caps, w, ctx);
  }

  // ---- when the code scopes lexically ------------------------------------------------------------

  predicate HasCapture(parts: seq<Part>) {
    exists p <- parts :: p.Capture?
  }

  /** A statement after which the code may have no captures although it had some: a matchall, not inside a match of its own. */
  predicate MayDrop(body: seq<Stmt>) {
    body != [] && (DropsAt(body[0]) || MayDrop(body[1..]))
  }

  predicate DropsAt(s: Stmt) {
    (s.TestStmt? && s.test.OnSource?) || (s.ElseStmt? && MayDrop(s.body))
  }

  /** The templates a statement itself resolves use captures. */
  predicate ReadsCapture(s: Stmt) {
    match s
    case WriteStmt(fmt, _) => HasCapture(fmt)
    case AssignStmt(_, fmt) => HasCapture(fmt)
    case TestStmt(test, _) => test.OnMatch? && (HasCapture(test.re) || HasCapture(test.target))
    case _ => false
  }

  /**
   * No capture is read between a matchall and the end of the enclosing match. `inMatch` says
   * whether these statements are inside a match, `lost` whether its captures may be gone.
   */
  predicate ReadsKept(body: seq<Stmt>, inMatch: bool, lost: bool) {
    body != [] ==>
      && !(lost && ReadsCapture(body[0]))
      && (match body[0]
          case TestStmt(test, yes) => ReadsKept(yes, inMatch || test.OnMatch?, lost && test.OnSource?)
          case ElseStmt(no) => ReadsKept(no, inMatch, lost)
          case _ => true)
      && ReadsKept(body[1..], inMatch, lost || (inMatch && DropsAt(body[0])))
  }

  /** Templates without captures resolve alike whatever the captures. */
  lemma {:induction false} NoCaptureResolves(parts: seq<Part>, vars: map<string, string>, a: Captures, b: Captures, ctx: Context)
    requires !HasCapture(parts)
    ensures Resolve(parts, vars, a, ctx) == Resolve(parts, vars, b, ctx)
  {
    if parts != [] {
      assert !parts[0].Capture?;
      NoCaptureResolves(parts[1..], vars, a, b, ctx);
    }
  }

  /** The captures the code has are the lexical ones, or gone where nobody reads them. */
  predicate Tracks(actual: Captures, lexical: Captures, lost: bool) {
    actual == lexical || (lost && actual.None?)
  }

  lemma SameTemplates(s: Stmt, actual: Captures, lexical: Captures, lost: bool, vars: map<string, string>, ctx: Context)
    requires Tracks(actual, lexical, lost) && !(lost && ReadsCapture(s))
    ensures s.WriteStmt? || s.AssignStmt? ==> Resolve(s.fmt, vars, actual, ctx) == Resolve(s.fmt, vars, lexical, ctx)
    ensures s.TestStmt? && s.test.OnMatch? ==>
              && Resolve(s.test.re, vars, actual, ctx) == Resolve(s.test.re, vars, lexical, ctx)
              && Resolve(s.test.target, vars, actual, ctx) == Resolve(s.test.target, vars, lexical, ctx)
  {
    if actual != lexical {
      if s.WriteStmt? || s.AssignStmt? {
        NoCaptureResolves(s.fmt, vars, actual, lexical, ctx);
      } else if s.TestStmt? && s.test.OnMatch? {
        NoCaptureResolves(s.test.re, vars, actual, lexical, ctx);
        NoCaptureResolves(s.test.target, vars, actual, lexical, ctx);
      }
    }
  }

  /** The code and lexical scoping had the same effect. */
  ghost predicate SameEffect(p: Passage, e: Effect) {
    p.world == e.world && (p.Lost? <==> e.Failed?)
  }

  lemma {:induction false} CodeScopes(body: seq<Stmt>, skipped: bool, actual: Captures, lexical: Captures, w: World, ctx: Context,
                                      inMatch: bool, lost: bool)
    requires ReadsKept(body, inMatch, lost) && (inMatch || lexical.None?) && Tracks(actual, lexical, lost)
    ensures SameEffect(RunCode(body, skipped, actual, w, ctx), RunBody(body, skipped, lexical, w, ctx))
    ensures var p := RunCode(body, skipped, actual, w, ctx);
            p.Through? ==> p.caps == actual || (p.caps.None? && MayDrop(body))
    decreases body
  {
    if body != [] {
      hide Resolve;
      var s, rest := body[0], body[1..];
      SameTemplates(s, actual, lexical, lost, w.vars, ctx);
      var lost' := lost || (inMatch && DropsAt(s));
      forall sk, w', c: Captures | Tracks(c, lexical, lost')
        ensures SameEffect(RunCode(rest, sk, c, w', ctx), RunBody(rest, sk, lexical, w', ctx))
        ensures var p := RunCode(rest, sk, c, w', ctx); p.Through? ==> p.caps == c || (p.caps.None? && MayDrop(rest))
      {
        CodeScopes(rest, sk, c, lexical, w', ctx, inMatch, lost');
      }
      match s {
        case TestStmt(test, yes) =>
          var d, d' := Decide(test, actual, w, ctx), Decide(test, lexical, w, ctx);
          if d.Yes? {
            CodeScopes(yes, false, d.caps, d'.caps, w, ctx, inMatch || test.OnMatch?, lost && test.OnSource?);
          }
        case ElseStmt(no) =>
          CodeScopes(no, false, actual, lexical, w, ctx, inMatch, lost);
        case _ =>
      }
    }
  }

  /**
   * A rule in which no capture is read between a matchall and the end of the enclosing match, run by
   * the evaluator from the root block, has the effect of lexical scoping and leaves the pointer NULL.
   */
  lemma RuleRefines(body: seq<Stmt>, w: World, ctx: Context)
    requires ReadsKept(body, false, false)
    ensures
      var o := Eval([CompileBlock(body)], True, None, w, ctx);
      match RunBody(body, false, None, w, ctx)
      case Failed(w') => o == Crashed(w')
      case Fine(w') => o == Ended(True, w', None)
  {
    TreeRunsRule(body, None, w, ctx);
    CodeScopes(body, false, None, None, w, ctx, false, false);
  }

  /** No matchall inside a match. */
  predicate Scoped(body: seq<Stmt>, inMatch: bool) {
    body != [] ==>
      (match body[0]
       case TestStmt(test, yes) => !(inMatch && test.OnSource?) && Scoped(yes, inMatch || test.OnMatch?)
       case ElseStmt(no) => Scoped(no, inMatch)
       case _ => true)
      && Scoped(body[1..], inMatch)
  }

  lemma {:induction false} ScopedIsKept(body: seq<Stmt>, inMatch: bool)
    requires Scoped(body, inMatch)
    ensures ReadsKept(body, inMatch, false) && (inMatch ==> !MayDrop(body))
    decreases body
  {
    if body != [] {
      ScopedIsKept(body[1..], inMatch);
      match body[0] {
        case TestStmt(test, yes) => ScopedIsKept(yes, inMatch || test.OnMatch?);
        case ElseStmt(no) => ScopedIsKept(no, inMatch);
        case _ =>
      }
    }
  }

  /**
   * Without a matchall inside a match, the capture pointer after any statement list is what it was
   * before it, and every match body sees its own captures.
   */
  lemma TreeRefinesBody(body: seq<Stmt>, prev: Result, caps: Captures, w: World, ctx: Context, inMatch: bool)
    requires Scoped(body, inMatch) && (inMatch || caps.None?)
    ensures
      var o := EvalRest(Compile(body), prev, caps, w, ctx);
      match RunBody(body, prev.False?, caps, w, ctx)
      case Failed(w') => o == Crashed(w')
      case Fine(w') => o == Ended(prev, w', caps)
  {
    TreeRunsBody(body, ctx);
    ScopedIsKept(body, inMatch);
    assert EvalRest(Compile(body), prev, caps, w, ctx) == AsOutcome(RunCode(body, prev.False?, caps, w, ctx), prev);
    CodeScopes(body, prev.False?, caps, caps, w, ctx, inMatch, false);
  }

  /** A matchall as the last thing in a match is not Scoped, yet scopes lexically. */
  lemma MatchAllAtTheEndIsKept(t: Test, only: string, yes: seq<Stmt>)
    requires t.OnMatch? && ReadsKept(yes, true, false)
    ensures
      var body := [TestStmt(t, [TestStmt(OnSource(only), yes)])];
      !Scoped(body, false) && ReadsKept(body, false, false)
  {
    var inner := [TestStmt(OnSource(only), yes)];
    var body := [TestStmt(t, inner)];
    assert inner[1..] == [] && body[1..] == [];
    assert !Scoped(inner, true) && ReadsKept(inner, true, false);
  }

  // ---- tests with their else ------------------------------------------------------------------

  datatype Rule =
    | Emit(fmt: seq<Part>, dest: string)
    | Set(variable: string, fmt: seq<Part>)
    | Leave
    | If(test: Test, yes: seq<Rule>)
    | IfElse(test: Test, yes: seq<Rule>, no: seq<Rule>)

  /** Of the two branches of a test exactly one runs, unless the test itself fails. */
  function Run(rules: seq<Rule>, caps: Captures, w: World, ctx: Context): Effect {
    if rules == [] then Fine(w)
    else
      var rest := rules[1..];
      match rules[0]
      case Leave => Fine(w)
      case Emit(fmt, dest) =>
        (match Resolve(fmt, w.vars, caps, ctx)
         case Crash => Failed(w)
         case Unresolved => Run(rest, caps, w, ctx)
         case Text(t) => Run(rest, caps, w.(writes := w.writes + [(dest, t)]), ctx))
      case Set(variable, fmt) =>
        (match Resolve(fmt, w.vars, caps, ctx)
         case Crash => Failed(w)
         case Unresolved => Fine(w)
         case Text(t) => Run(rest, caps, w.(vars := w.vars[variable := t]), ctx))
      case If(test, yes) =>
        (match Decide(test, caps, w, ctx)
         case Faulty => Failed(w)
         case Broken => Fine(w)
         case No => Run(rest, caps, w, ctx)
         case Yes(inner) =>
           var e := Run(yes, inner, w, ctx);
           if e.Failed? then e else Run(rest, caps, e.world, ctx))
      case IfElse(test, yes, no) =>
        match Decide(test, caps, w, ctx)
        case Faulty => Failed(w)
        case Broken => Fine(w)
        case No =>
          var e := Run(no, caps, w, ctx);
          if e.Failed? then e else Run(rest, caps, e.world, ctx)
        case Yes(inner) =>
          var e := Run(yes, inner, w, ctx);
          if e.Failed? then e else Run(rest, caps, e.world, ctx)
  }

  /** How a structured rule is written down in the grammar. */
  function Flatten(rules: seq<Rule>): seq<Stmt> {
    if rules == [] then [] else FlattenRule(rules[0]) + Flatten(rules[1..])
  }

  function FlattenRule(r: Rule): seq<Stmt> {
    match r
    case Emit(fmt, dest) => [WriteStmt(fmt, dest)]
    case Set(variable, fmt) => [AssignStmt(variable, fmt)]
    case Leave => [BreakStmt]
    case If(test, yes) => [TestStmt(test, Flatten(yes))]
    case IfElse(test, yes, no) => [TestStmt(test, Flatten(yes)), ElseStmt(Flatten(no))]
  }

  lemma ElseStep(no: seq<Stmt>, rest: seq<Stmt>, caps: Captures, w: World, ctx: Context)
    ensures RunBody([ElseStmt(no)] + rest, false, caps, w, ctx) == RunBody(rest, true, caps, w, ctx)
    ensures RunBody([ElseStmt(no)] + rest, true, caps, w, ctx) ==
            var e := RunBody(no, false, caps, w, ctx);
            if e.Failed? then e else RunBody(rest, false, caps, e.world, ctx)
  {
    var body := [ElseStmt(no)] + rest;
    assert body[0] == ElseStmt(no) && body[1..] == rest;
  }

  lemma IfElseRuns(test: Test, yes: seq<Rule>, no: seq<Rule>, rest: seq<Rule>, skipped: bool, caps: Captures, w: World, ctx: Context)
    requires forall sk, w' :: RunBody(Flatten(rest), sk, caps, w', ctx) == Run(rest, caps, w', ctx)
    requires RunBody(Flatten(no), false, caps, w, ctx) == Run(no, caps, w, ctx)
    requires var d := Decide(test, caps, w, ctx);
             d.Yes? ==> RunBody(Flatten(yes), false, d.caps, w, ctx) == Run(yes, d.caps, w, ctx)
    ensures RunBody(FlattenRule(IfElse(test, yes, no)) + Flatten(rest), skipped, caps, w, ctx)
         == Run([IfElse(test, yes, no)] + rest, caps, w, ctx)
  {
    hide Resolve, Decide, Flatten;
    var body, tail := FlattenRule(IfElse(test, yes, no)) + Flatten(rest), Flatten(rest);
    var rules := [IfElse(test, yes, no)] + rest;
    assert body[0] == TestStmt(test, Flatten(yes)) && body[1..] == [ElseStmt(Flatten(no))] + tail;
    assert rules[0] == IfElse(test, yes, no) && rules[1..] == rest;
    ElseStep(Flatten(no), tail, caps, w, ctx);
    var d := Decide(test, caps, w, ctx);
    if d.Yes? {
      ElseStep(Flatten(no), tail, caps, Run(yes, d.caps, w, ctx).world, ctx);
    }
  }

  /** The rules that become a single statement. */
  lemma SingleRuns(r: Rule, rest: seq<Rule>, skipped: bool, caps: Captures, w: World, ctx: Context)
    requires !r.IfElse? && forall sk, w' :: RunBody(Flatten(rest), sk, caps, w', ctx) == Run(rest, caps, w', ctx)
    requires r.If? ==>
               var d := Decide(r.test, caps, w, ctx);
               d.Yes? ==> RunBody(Flatten(r.yes), false, d.caps, w, ctx) == Run(r.yes, d.caps, w, ctx)
    ensures RunBody(FlattenRule(r) + Flatten(rest), skipped, caps, w, ctx) == Run([r] + rest, caps, w, ctx)
  {
    hide Resolve, Decide, Flatten;
    var body, rules := FlattenRule(r) + Flatten(rest), [r] + rest;
    assert body[0] == FlattenRule(r)[0] && body[1..] == Flatten(rest) && rules[0] == r && rules[1..] == rest;
  }

  /** Written down, a structured rule keeps its meaning, whatever stands before it. */
  lemma {:induction false} FlattenRuns(rules: seq<Rule>, skipped: bool, caps: Captures, w: World, ctx: Context)
    ensures RunBody(Flatten(rules), skipped, caps, w, ctx) == Run(rules, caps, w, ctx)
    decreases rules
  {
    if rules != [] {
      var r, rest := rules[0], rules[1..];
      assert Flatten(rules) == FlattenRule(r) + Flatten(rest) && rules == [r] + rest;
      hide Resolve, Decide, Run, RunBody, Flatten, FlattenRule;
      forall sk, w' ensures RunBody(Flatten(rest), sk, caps, w', ctx) == Run(rest, caps, w', ctx) {
        FlattenRuns(rest, sk, caps, w', ctx);
      }
      if r.If? || r.IfElse? {
        var d := Decide(r.test, caps, w, ctx);
        if d.Yes? {
          FlattenRuns(r.yes, false, d.caps, w, ctx);
        }
      }
      if r.IfElse? {
        FlattenRuns(r.no, false, caps, w, ctx);
        IfElseRuns(r.test, r.yes, r.no, rest, skipped, caps, w, ctx);
      } else {
        SingleRuns(r, rest, skipped, caps, w, ctx);
      }
    }
  }

  lemma FlattenCons(r: Rule, rest: seq<Rule>)
    ensures Flatten([r] + rest) == FlattenRule(r) + Flatten(rest)
  {
    assert ([r] + rest)[0] == r && ([r] + rest)[1..] == rest;
  }

  /** Every else directly follows a test. */
  predicate Structured(body: seq<Stmt>) {
    body != [] ==>
      && !body[0].ElseStmt?
      && (body[0].TestStmt? ==> Structured(body[0].body))
      && if HasElse(body) then Structured(body[1].body) && Structured(body[2..]) else Structured(body[1..])
  }

  predicate HasElse(body: seq<Stmt>) {
    |body| > 1 && body[0].TestStmt? && body[1].ElseStmt?
  }

  function Unflatten(body: seq<Stmt>): seq<Rule>
    requires Structured(body)
  {
    if body == [] then []
    else
      match body[0]
      case WriteStmt(fmt, dest) => [Emit(fmt, dest)] + Unflatten(body[1..])
      case AssignStmt(variable, fmt) => [Set(variable, fmt)] + Unflatten(body[1..])
      case BreakStmt => [Leave] + Unflatten(body[1..])
      case TestStmt(test, yes) =>
        if HasElse(body) then [IfElse(test, Unflatten(yes), Unflatten(body[1].body))] + Unflatten(body[2..])
        else [If(test, Unflatten(yes))] + Unflatten(body[1..])
  }

  /** The structured rules are exactly the statement lists whose every else directly follows a test. */
  lemma {:induction false} FlattenUnflatten(body: seq<Stmt>)
    requires Structured(body)
    ensures Flatten(Unflatten(body)) == body
    decreases body
  {
    if body != [] {
      hide Flatten;
      if body[0].TestStmt? {
        FlattenUnflatten(body[0].body);
      }
      if HasElse(body) {
        FlattenUnflatten(body[1].body);
        FlattenUnflatten(body[2..]);
        FlattenCons(IfElse(body[0].test, Unflatten(body[0].body), Unflatten(body[1].body)), Unflatten(body[2..]));
        assert body == [body[0], body[1]] + body[2..];
      } else {
        FlattenUnflatten(body[1..]);
        FlattenCons(Unflatten(body)[0], Unflatten(body[1..]));
        assert body == [body[0]] + body[1..];
      }
    } else {
      assert Flatten([]) == [];
    }
  }

  lemma {:induction false} FlattenIsStructured(rules: seq<Rule>)
    ensures Structured(Flatten(rules)) && (rules != [] ==> Flatten(rules) != [] && !Flatten(rules)[0].ElseStmt?)
    decreases rules
  {
    if rules != [] {
      var r, body, tail := rules[0], Flatten(rules), Flatten(rules[1..]);
      assert body == FlattenRule(r) + tail;
      FlattenIsStructured(rules[1..]);
      if r.If? || r.IfElse? {
        FlattenIsStructured(r.yes);
      }
      if r.IfElse? {
        FlattenIsStructured(r.no);
        assert body[1] == ElseStmt(Flatten(r.no)) && body[2..] == tail;
      } else {
        assert body[1..] == tail;
        assert |body| > 1 ==> body[1] == tail[0];
      }
    }
  }

  /**
   * A second else is not part of the test: when the test holds, its body and the second
   * else both run, and when it does not, only the first else does.
   */
  lemma SecondElse(t: Test, yes: seq<Stmt>, a: seq<Stmt>, b: seq<Stmt>, caps: Captures, w: World, ctx: Context)
    ensures
      var e := RunBody([TestStmt(t, yes), ElseStmt(a), ElseStmt(b)], false, caps, w, ctx);
      match Decide(t, caps, w, ctx)
      case Faulty => e == Failed(w)
      case Broken => e == Fine(w)
      case No => e == RunBody(a, false, caps, w, ctx)
      case Yes(inner) =>
        e == var first := RunBody(yes, false, inner, w, ctx);
             if first.Failed? then first else RunBody(b, false, caps, first.world, ctx)
  {
    hide Resolve, Decide;
    var body := [TestStmt(t, yes), ElseStmt(a), ElseStmt(b)];
    var second := [ElseStmt(b)] + [];
    assert body[1..] == [ElseStmt(a)] + second;
    ElseStep(a, second, caps, w, ctx);
    var d := Decide(t, caps, w, ctx);
    if d.Yes? {
      var first := RunBody(yes, false, d.caps, w, ctx);
      ElseStep(a, second, caps, first.world, ctx);
      ElseStep(b, [], caps, first.world, ctx);
    } else if d.No? {
      ElseStep(b, [], caps, RunBody(a, false, caps, w, ctx).world, ctx);
    }
  }

  // ---- source tests inside a match ------------------------------------------------------------

  /** A matchall that completes leaves the captures alone exactly when there were none or its source is another one. */
  lemma MatchAllKeepsCapturesIff(only: string, body: seq<Stmt>, prev: Result, caps: Captures, w: World, ctx: Context)
    ensures
      var o := Eval([CompileStmt(TestStmt(OnSource(only), body))], prev, caps, w, ctx);
      o.Ended? ==> (o.caps == caps <==> caps.None? || !SameSource(only, ctx.source))
  {
    hide Resolve;
    var nodes := [CompileStmt(TestStmt(OnSource(only), body))];
    assert nodes[1..] == [] && nodes[0] == Tree(MatchAll(only), [CompileBlock(body)]);
    BlockEndsTrue(body, caps, w, ctx);
  }

  lemma BlockEndsTrue(body: seq<Stmt>, caps: Captures, w: World, ctx: Context)
    ensures var o := Eval([CompileBlock(body)], True, caps, w, ctx); o.Ended? ==> o.res.True?
  {
    var nodes := [CompileBlock(body)];
    assert nodes[1..] == [];
  }

  /** Inside a match, a source test that passes makes a later `%{0}` read through NULL, where scoping would print it. */
  lemma SourceTestInsideMatchCrashes(t: Test, only: string, dest: string, w: World, ctx: Context)
    requires t.OnMatch? && Decide(t, None, w, ctx).Yes? && SameSource(only, ctx.source)
    ensures
      var body := [TestStmt(t, [TestStmt(OnSource(only), []), WriteStmt([Capture(0)], dest)])];
      Eval([CompileBlock(body)], True, None, w, ctx).Crashed? && RunBody(body, false, None, w, ctx).Fine?
  {
    hide Resolve;
    var inner := Decide(t, None, w, ctx).caps;
    var yes := [TestStmt(OnSource(only), []), WriteStmt([Capture(0)], dest)];
    var body := [TestStmt(t, yes)];
    SourceTestBody(only, dest, inner, w, ctx);
    assert body[1..] == [];
    HandlerDecides(t, True, None, w, ctx);
    var node := Tree(TestOp(t), [CompileBlock(yes)]);
    assert Compile(body) == [node];
    assert Eval([node], True, None, w, ctx).Crashed?;
  }

  lemma SourceTestBody(only: string, dest: string, caps: Captures, w: World, ctx: Context)
    requires caps.Some? && |caps.value| > 0 && SameSource(only, ctx.source)
    ensures
      var body := [TestStmt(OnSource(only), []), WriteStmt([Capture(0)], dest)];
      Eval([CompileBlock(body)], True, caps, w, ctx).Crashed? && RunBody(body, false, caps, w, ctx).Fine?
  {
    var body := [TestStmt(OnSource(only), []), WriteStmt([Capture(0)], dest)];
    var parts := [Capture(0)];
    assert parts[1..] == [];
    assert Resolve(parts, w.vars, caps, ctx) == Text(caps.value[0] + "") && Resolve(parts, w.vars, None, ctx) == Crash;
    assert body[1..] == [WriteStmt(parts, dest)] && body[1..][1..] == [];
    assert RunBody(body[1..], false, caps, w, ctx).Fine?;
    var first, last := Tree(MatchAll(only), [Tree(Passthrough, [])]), Tree(Write(parts, dest), []);
    assert CompileBlock([]) == Tree(Passthrough, []) && CompileStmt(body[0]) == first;
    assert Compile(body[1..]) == [last] && Compile(body) == [first] + [last];
    assert [first, last][1..] == [last] && [last][1..] == [];
    assert Eval(first.kids, True, caps, w, ctx) == Ended(True, w, caps);
    assert Eval([last], True, None, w, ctx) == Crashed(w);
    assert Eval([first, last], True, caps, w, ctx) == Crashed(w);
  }

  // ---- captures are there when they are read -----------------------------------------------------

  predicate SafeParts(parts: seq<Part>, inMatch: bool) {
    forall p <- parts :: p.Capture? ==> inMatch && p.number >= 0
  }

  predicate SafeTest(t: Test, inMatch: bool) {
    t.OnMatch? ==> SafeParts(t.re, inMatch) && SafeParts(t.target, inMatch)
  }

  /** Captures are referred to inside a match only, by non-negative numbers. */
  predicate Safe(body: seq<Stmt>, inMatch: bool) {
    body != [] ==>
      (match body[0]
       case WriteStmt(fmt, _) => SafeParts(fmt, inMatch)
       case AssignStmt(_, fmt) => SafeParts(fmt, inMatch)
       case BreakStmt => true
       case TestStmt(test, yes) => SafeTest(test, inMatch) && Safe(yes, inMatch || test.OnMatch?)
       case ElseStmt(no) => Safe(no, inMatch))
      && Safe(body[1..], inMatch)
  }

  lemma {:induction false} SafePartsResolve(parts: seq<Part>, vars: map<string, string>, caps: Captures, ctx: Context)
    requires SafeParts(parts, caps.Some?)
    ensures !Resolve(parts, vars, caps, ctx).Crash?
  {
    if parts != [] {
      assert parts[0] in parts;
      SafePartsResolve(parts[1..], vars, caps, ctx);
    }
  }

  /** No NULL or out-of-bounds capture is ever read. */
  lemma {:induction false} SafeNeverCrashes(body: seq<Stmt>, skipped: bool, caps: Captures, w: World, ctx: Context)
    requires Safe(body, caps.Some?)
    ensures RunBody(body, skipped, caps, w, ctx).Fine?
    decreases body
  {
    if body != [] {
      hide Resolve, SafeParts;
      var rest := body[1..];
      forall sk, w' ensures RunBody(rest, sk, caps, w', ctx).Fine? {
        SafeNeverCrashes(rest, sk, caps, w', ctx);
      }
      match body[0] {
        case BreakStmt =>
        case WriteStmt(fmt, _) => SafePartsResolve(fmt, w.vars, caps, ctx);
        case AssignStmt(_, fmt) => SafePartsResolve(fmt, w.vars, caps, ctx);
        case TestStmt(test, yes) =>
          SafeTestDecides(test, caps, w, ctx);
          var d := Decide(test, caps, w, ctx);
          if d.Yes? {
            SafeNeverCrashes(yes, false, d.caps, w, ctx);
          }
        case ElseStmt(no) => SafeNeverCrashes(no, false, caps, w, ctx);
      }
    }
  }

  lemma SafeTestDecides(t: Test, caps: Captures, w: World, ctx: Context)
    requires SafeTest(t, caps.Some?)
    ensures var d := Decide(t, caps, w, ctx); !d.Faulty? && (d.Yes? ==> d.caps.Some? == (caps.Some? || t.OnMatch?))
  {
    if t.OnMatch? {
      SafePartsResolve(t.re, w.vars, caps, ctx);
      SafePartsResolve(t.target, w.vars, caps, ctx);
    }
  }
}
