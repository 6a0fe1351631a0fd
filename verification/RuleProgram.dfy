/** From the rules of a configuration, through the parser's tree, to the lines written. */
module RuleProgram {
  import opened Options
  import opened RuleModel
  import opened RuleScoping
  import opened RuleEval
  import opened RuleParser

  lemma {:induction false} CompileIsShaped(body: seq<Stmt>)
    ensures Shaped(Compile(body))
    decreases body
  {
    if body != [] {
      CompileIsShaped(body[1..]);
      var s := body[0];
      if s.TestStmt? || s.ElseStmt? {
        CompileIsShaped(s.body);
        assert Shaped(CompileBlock(s.body).kids);
        assert Shaped([CompileBlock(s.body)]);
      }
    }
  }

  /**
   * All `rule` blocks of a configuration. Only the first one becomes the root: the action
   * of `rule_cmd` does not close its block, so later blocks hang off nothing.
   */
  method ParseRules(config: seq<seq<Stmt>>) returns (root: Node, ghost ss: seq<Shape>)
    requires |config| > 0
    ensures fresh(root) && BlockOk(root, ss, Compile(config[0])) && fresh(NodesOf(ss)) && Unused({root} + NodesOf(ss))
  {
    hide NodesOf, Distinct, Linked, Compile;
    var parser := new Parser();
    ss := parser.ParseBlock(config[0]);
    root := parser.curblock;
    for i := 1 to |config|
      invariant fresh(parser) && parser.rootnode == root && fresh(root)
      invariant BlockOk(root, ss, Compile(config[0])) && fresh(NodesOf(ss)) && Unused({root} + NodesOf(ss))
    {
      NodesAllocated(ss);
      ghost var _ := parser.ParseBlock(config[i]);
    }
    root := parser.rootnode;
  }

  /** One line after the other, on the same tree; variables last, captures do not. */
  function EvalLines(tree: Tree, lines: seq<Context>, w: World): Effect {
    if lines == [] then Fine(w)
    else
      match Eval([tree], True, None, w, lines[0])
      case Crashed(w') => Failed(w')
      case Ended(_, w', _) => EvalLines(tree, lines[1..], w')
  }

  /** The same by the meaning statements have in the code. */
  function CodeLines(body: seq<Stmt>, lines: seq<Context>, w: World): Effect {
    if lines == [] then Fine(w)
    else
      match RunCode(body, false, None, w, lines[0])
      case Lost(w') => Failed(w')
      case Through(w', _) => CodeLines(body, lines[1..], w')
  }

  /** The same by lexical scoping. */
  function RunLines(body: seq<Stmt>, lines: seq<Context>, w: World): Effect {
    if lines == [] then Fine(w)
    else
      match RunBody(body, false, None, w, lines[0])
      case Failed(w') => Failed(w')
      case Fine(w') => RunLines(body, lines[1..], w')
  }

  lemma {:induction false} LinesRun(body: seq<Stmt>, lines: seq<Context>, w: World)
    ensures EvalLines(CompileBlock(body), lines, w) == CodeLines(body, lines, w)
    decreases |lines|
  {
    if lines != [] {
      hide Eval, RunCode;
      TreeRunsRule(body, None, w, lines[0]);
      var p := RunCode(body, false, None, w, lines[0]);
      if p.Through? {
        LinesRun(body, lines[1..], p.world);
      }
    }
  }

  lemma {:induction false} LinesRefine(body: seq<Stmt>, lines: seq<Context>, w: World)
    requires ReadsKept(body, false, false)
    ensures CodeLines(body, lines, w) == RunLines(body, lines, w)
    decreases |lines|
  {
    if lines != [] {
      hide RunCode, RunBody, ReadsKept;
      CodeScopes(body, false, None, None, w, lines[0], false, false);
      var e := RunBody(body, false, None, w, lines[0]);
      if e.Fine? {
        LinesRefine(body, lines[1..], e.world);
      }
    }
  }

  /** `node_eval_root` for line after line of a parsed configuration: the exact behaviour, whatever the statements. */
  method EvalParsed(config: seq<seq<Stmt>>, lines: seq<Context>, w0: World) returns (e: Effect)
    requires |config| > 0
    ensures e == EvalLines(CompileBlock(config[0]), lines, w0) == CodeLines(config[0], lines, w0)
  {
    LinesRun(config[0], lines, w0);
    hide NodesOf, Distinct, Linked, Compile, Eval, CodeLines;
    var root, ss := ParseRules(config);
    ghost var tree := CompileBlock(config[0]);
    ghost var shapes := [Shape(root, ss)];
    CompileIsShaped(config[0]);
    BlockIsShaped(config[0]);
    SingleNode(root, ss, Compile(config[0]));
    var w := w0;
    for i := 0 to |lines|
      invariant fresh(NodesOf(shapes)) && Linked(root, shapes, [tree]) && Distinct(shapes) && Unsaved(NodesOf(shapes))
      invariant EvalLines(tree, lines[i..], w) == EvalLines(tree, lines, w0)
    {
      assert lines[i..][0] == lines[i] && lines[i..][1..] == lines[i + 1..];
      NodesAllocated(shapes);
      var x := new Exec(lines[i], w);
      var r := EvalNode(root, x, True, shapes, [tree]);
      w := x.TheWorld();
      if r.None? {
        return Failed(w);
      }
    }
    return Fine(w);
  }

  lemma BlockIsShaped(body: seq<Stmt>)
    requires Shaped(Compile(body))
    ensures Shaped([CompileBlock(body)])
  {
  }

  /**
   * End to end, for every configuration: the statements, parsed into linked nodes and evaluated with
   * the saved and restored capture pointer, write the lines and leave the variables their meaning in
   * the code prescribes, over any number of log lines. That is lexical scoping when no capture is read
   * between a matchall and the end of the enclosing match, and then never a crash if captures are read
   * inside matches only.
   */
  method EvalRules(config: seq<seq<Stmt>>, lines: seq<Context>, w0: World) returns (e: Effect)
    requires |config| > 0
    ensures e == CodeLines(config[0], lines, w0)
    ensures ReadsKept(config[0], false, false) ==> e == RunLines(config[0], lines, w0)
    ensures ReadsKept(config[0], false, false) && Safe(config[0], false) ==> e.Fine?
  {
    if ReadsKept(config[0], false, false) {
      LinesRefine(config[0], lines, w0);
      if Safe(config[0], false) {
        SafeLinesNeverCrash(config[0], lines, w0);
      }
    }
    e := EvalParsed(config, lines, w0);
  }

  lemma {:induction false} SafeLinesNeverCrash(body: seq<Stmt>, lines: seq<Context>, w: World)
    requires Safe(body, false)
    ensures RunLines(body, lines, w).Fine?
    decreases |lines|
  {
    if lines != [] {
      SafeNeverCrashes(body, false, None, w, lines[0]);
      SafeLinesNeverCrash(body, lines[1..], RunBody(body, false, None, w, lines[0]).world);
    }
  }
}
