/**
 * What rules write, statement by statement: laws about the lines written and the
 * variables left, stated on the configuration and the matcher's reply alone.
 */
module RuleLaws {
  import opened Options
  import opened RuleModel
  import opened RuleScoping
  import opened RuleProgram

  /** One more line handed to the writer. */
  function Wrote(w: World, dest: string, text: string): World {
    w.(writes := w.writes + [(dest, text)])
  }

  // ---- templates ------------------------------------------------------------------------

  lemma {:induction false} TemplatesAppend(a: seq<Part>, b: seq<Part>, vars: map<string, string>, caps: Captures, ctx: Context)
    ensures
      var x, y := Resolve(a, vars, caps, ctx), Resolve(b, vars, caps, ctx);
      Resolve(a + b, vars, caps, ctx) == if !x.Text? then x else if !y.Text? then y else Text(x.text + y.text)
    decreases |a|
  {
    if a == [] {
      assert a + b == b;
      assert "" + (if Resolve(b, vars, caps, ctx).Text? then Resolve(b, vars, caps, ctx).text else "")
          == (if Resolve(b, vars, caps, ctx).Text? then Resolve(b, vars, caps, ctx).text else "");
    } else {
      hide ResolvePart;
      TemplatesAppend(a[1..], b, vars, caps, ctx);
      assert (a + b)[0] == a[0] && (a + b)[1..] == a[1..] + b;
      var t, x, y := ResolvePart(a[0], vars, caps, ctx), Resolve(a[1..], vars, caps, ctx), Resolve(b, vars, caps, ctx);
      assert t.Text? && x.Text? && y.Text? ==> (t.text + x.text) + y.text == t.text + (x.text + y.text);
    }
  }

  lemma SinglePart(part: Part, vars: map<string, string>, caps: Captures, ctx: Context)
    ensures Resolve([part], vars, caps, ctx) == ResolvePart(part, vars, caps, ctx)
  {
    var r := ResolvePart(part, vars, caps, ctx);
    hide ResolvePart;
    assert [part][1..] == [];
    assert r.Text? ==> r.text + "" == r.text;
  }

  /** A write of one part, outside any match. */
  lemma WritesPart(part: Part, dest: string, w: World, ctx: Context)
    ensures
      var after := CodeLines([WriteStmt([part], dest)], [ctx], w);
      && (part.Verbatim? ==> after == Fine(Wrote(w, dest, part.text)))
      && (part.LogLine? ==> after == Fine(Wrote(w, dest, ctx.line)))
      && (part.Source? ==> after == Fine(Wrote(w, dest, ctx.source)))
      && (part.DateTime? ==> after == Fine(Wrote(w, dest, ctx.datetime)))
      && (part.FractSecond? ==> after == Fine(Wrote(w, dest, ctx.fract)))
      && (part.DateTimeFract? ==> after == Fine(Wrote(w, dest, ctx.datetime + "." + ctx.shortFract)))
      && (part.Env? ==> after == Fine(Wrote(w, dest, ctx.getenv(part.name))))
      && (part.Var? && part.name in w.vars ==> after == Fine(Wrote(w, dest, w.vars[part.name])))
      && (part.Var? && part.name !in w.vars ==> after == Fine(Wrote(w, dest, "")))
      && (part.Capture? ==> after == Failed(w))
      && (part.Invalid? ==> after == Fine(w))
  {
    SinglePart(part, w.vars, None, ctx);
    var body := [WriteStmt([part], dest)];
    assert body[1..] == [];
    OneLine(body, ctx, w);
  }

  /** One line, then nothing more. */
  lemma OneLine(body: seq<Stmt>, ctx: Context, w: World)
    ensures
      var p := RunCode(body, false, None, w, ctx);
      CodeLines(body, [ctx], w) == if p.Lost? then Failed(p.world) else Fine(p.world)
  {
    hide RunCode;
    assert [ctx][1..] == [];
    var p := RunCode(body, false, None, w, ctx);
    assert p.Through? ==> CodeLines(body, [], p.world) == Fine(p.world);
  }

  // ---- captures ----------------------------------------------------------------------------

  /** The test's templates resolve outside any match, and the matcher is asked about them. */
  predicate Asks(test: Test, w: World, ctx: Context, target: string, re: string) {
    test.OnMatch? && Resolve(test.re, w.vars, None, ctx) == Text(re) && Resolve(test.target, w.vars, None, ctx) == Text(target)
  }

  /** The line comes from a source the filter admits: the two names do not differ where both have a character. */
  predicate Admits(from: Option<string>, source: string) {
    from.Some? ==> !Differ(from.value, source)
  }

  predicate Differ(a: string, b: string) {
    exists i :: 0 <= i < |a| && i < |b| && a[i] != b[i]
  }

  /** The source filter compares what both names have. */
  lemma SameSourceIff(a: string, b: string)
    ensures SameSource(a, b) <==> !Differ(a, b)
  {
    if !Differ(a, b) {
      if |a| <= |b| {
        assert a <= b;
      } else {
        assert b <= a;
      }
    } else {
      var i :| 0 <= i < |a| && i < |b| && a[i] != b[i];
    }
  }

  /** What a match test decides, from the reply of the matcher. */
  lemma MatchDecides(test: Test, w: World, ctx: Context, target: string, re: string)
    requires Asks(test, w, ctx, target, re)
    ensures
      var d := Decide(test, None, w, ctx);
      if !Admits(test.from, ctx.source) then d == No
      else
        match ctx.strMatch(target, re)
        case Erroneous => d == Broken
        case NoMatch => d == No
        case Groups(subject, captures) => d == Yes(Some([subject] + captures))
  {
    if test.from.Some? {
      SameSourceIff(test.from.value, ctx.source);
    }
  }

  /** `match` ... `write "%{n}"`: the n-th string of the match is written, an empty text beyond the last. */
  lemma WritesCapture(test: Test, n: int, dest: string, w: World, ctx: Context, target: string, re: string)
    requires Asks(test, w, ctx, target, re) && Admits(test.from, ctx.source) && ctx.strMatch(target, re).Groups?
    ensures
      var g := [ctx.strMatch(target, re).subject] + ctx.strMatch(target, re).captures;
      var after := CodeLines([TestStmt(test, [WriteStmt([Capture(n)], dest)])], [ctx], w);
      && (0 <= n < |g| ==> after == Fine(Wrote(w, dest, g[n])))
      && (n >= |g| ==> after == Fine(Wrote(w, dest, "")))
      && (n < 0 ==> after == Failed(w))
  {
    var inner := [WriteStmt([Capture(n)], dest)];
    var body := [TestStmt(test, inner)];
    assert inner[1..] == [] && body[1..] == [];
    MatchDecides(test, w, ctx, target, re);
    var d := Decide(test, None, w, ctx);
    SinglePart(Capture(n), w.vars, d.caps, ctx);
    hide Decide, Resolve;
    OneLine(body, ctx, w);
    var text := Resolve([Capture(n)], w.vars, d.caps, ctx);
    if text.Text? {
      assert inner == inner + [];
      WriteThen([Capture(n)], dest, text.text, [], false, d.caps, w, ctx);
      var w1 := Wrote(w, dest, text.text);
      assert RunCode(body[1..], false, None, w1, ctx) == Through(w1, None);
    }
  }

  /** With a filter, a match is the match without it for admitted sources, and no match for the others. */
  lemma FilterDecides(re: seq<Part>, target: seq<Part>, only: string, yes: seq<Stmt>, rest: seq<Stmt>, w: World, ctx: Context)
    ensures
      var with, without := TestStmt(OnMatch(re, target, Some(only)), yes), TestStmt(OnMatch(re, target, None), yes);
      && (!Differ(only, ctx.source) ==> RunCode([with] + rest, false, None, w, ctx) == RunCode([without] + rest, false, None, w, ctx))
      && (Differ(only, ctx.source) && Resolve(re, w.vars, None, ctx).Text? && Resolve(target, w.vars, None, ctx).Text? ==>
            RunCode([with] + rest, false, None, w, ctx) == RunCode(rest, true, None, w, ctx))
  {
    hide Resolve;
    SameSourceIff(only, ctx.source);
    var with, without := TestStmt(OnMatch(re, target, Some(only)), yes), TestStmt(OnMatch(re, target, None), yes);
    assert ([with] + rest)[0] == with && ([with] + rest)[1..] == rest;
    assert ([without] + rest)[0] == without && ([without] + rest)[1..] == rest;
  }

  /** `matchall from`: its body runs for admitted sources and for no others. */
  lemma SourceDecides(only: string, yes: seq<Stmt>, w: World, ctx: Context)
    ensures
      var after := CodeLines([TestStmt(OnSource(only), yes)], [ctx], w);
      after == if Differ(only, ctx.source) then Fine(w) else CodeLines(yes, [ctx], w)
  {
    SameSourceIff(only, ctx.source);
    var body := [TestStmt(OnSource(only), yes)];
    assert body[1..] == [];
    OneLine(body, ctx, w);
    OneLine(yes, ctx, w);
    var p := RunCode(yes, false, None, w, ctx);
    assert p.Through? ==> RunCode(body[1..], false, None, p.world, ctx) == Through(p.world, None);
  }

  // ---- several statements ----------------------------------------------------------------------

  /** A template that resolves is written, and the rest follows. */
  lemma WriteThen(fmt: seq<Part>, dest: string, text: string, rest: seq<Stmt>, skipped: bool, caps: Captures, w: World, ctx: Context)
    requires Resolve(fmt, w.vars, caps, ctx) == Text(text)
    ensures RunCode([WriteStmt(fmt, dest)] + rest, skipped, caps, w, ctx) == RunCode(rest, false, caps, Wrote(w, dest, text), ctx)
  {
    hide Resolve;
    var body := [WriteStmt(fmt, dest)] + rest;
    assert body[0] == WriteStmt(fmt, dest) && body[1..] == rest;
  }

  /** An assignment is what the variable reads as from then on. */
  lemma AssignedIsRead(v: string, fmt: seq<Part>, dest: string, text: string, w: World, ctx: Context)
    requires Resolve(fmt, w.vars, None, ctx) == Text(text)
    ensures CodeLines([AssignStmt(v, fmt), WriteStmt([Var(v)], dest)], [ctx], w)
         == Fine(World(w.vars[v := text], w.writes + [(dest, text)]))
  {
    var write := [WriteStmt([Var(v)], dest)];
    var body := [AssignStmt(v, fmt)] + write;
    var w1 := w.(vars := w.vars[v := text]);
    SinglePart(Var(v), w1.vars, None, ctx);
    assert body[0] == AssignStmt(v, fmt) && body[1..] == write && write == write + [];
    hide Resolve;
    WriteThen([Var(v)], dest, text, [], false, None, w1, ctx);
    OneLine(body, ctx, w);
    assert body == [AssignStmt(v, fmt), WriteStmt([Var(v)], dest)];
  }

  /** An assignment that does not resolve ends its list and leaves the variable. */
  lemma UnresolvedAssignmentEnds(v: string, fmt: seq<Part>, rest: seq<Stmt>, w: World, ctx: Context)
    requires Resolve(fmt, w.vars, None, ctx).Unresolved?
    ensures CodeLines([AssignStmt(v, fmt)] + rest, [ctx], w) == Fine(w)
  {
    hide Resolve;
    var body := [AssignStmt(v, fmt)] + rest;
    assert body[0] == AssignStmt(v, fmt);
    OneLine(body, ctx, w);
  }

  /** Lines are written in the order of the statements. */
  lemma WritesInOrder(a: seq<Part>, b: seq<Part>, d: string, e: string, x: string, y: string, w: World, ctx: Context)
    requires Resolve(a, w.vars, None, ctx) == Text(x) && Resolve(b, w.vars, None, ctx) == Text(y)
    ensures CodeLines([WriteStmt(a, d), WriteStmt(b, e)], [ctx], w) == Fine(w.(writes := w.writes + [(d, x), (e, y)]))
  {
    hide Resolve;
    var second := [WriteStmt(b, e)];
    var body := [WriteStmt(a, d)] + second;
    WriteThen(a, d, x, second, false, None, w, ctx);
    assert second == second + [];
    WriteThen(b, e, y, [], false, None, Wrote(w, d, x), ctx);
    OneLine(body, ctx, w);
    assert (w.writes + [(d, x)]) + [(e, y)] == w.writes + [(d, x), (e, y)];
    assert body == [WriteStmt(a, d), WriteStmt(b, e)];
  }

  /** What stands behind a break is not run. */
  lemma BreakEnds(rest: seq<Stmt>, w: World, ctx: Context)
    ensures CodeLines([BreakStmt] + rest, [ctx], w) == Fine(w)
  {
    var body := [BreakStmt] + rest;
    assert body[0] == BreakStmt;
    OneLine(body, ctx, w);
  }

  /** Of a match and its else, the reply of the matcher chooses: the one, the other, or neither when it errs. */
  lemma ReplyChooses(test: Test, yes: seq<Stmt>, no: seq<Stmt>, w: World, ctx: Context, target: string, re: string)
    requires Asks(test, w, ctx, target, re) && Admits(test.from, ctx.source)
    ensures
      var after := RunCode([TestStmt(test, yes), ElseStmt(no)], false, None, w, ctx);
      match ctx.strMatch(target, re)
      case Erroneous => after == Through(w, None)
      case NoMatch => after.world == RunCode(no, false, None, w, ctx).world
      case Groups(subject, captures) => after.world == RunCode(yes, false, Some([subject] + captures), w, ctx).world
  {
    hide Resolve;
    MatchDecides(test, w, ctx, target, re);
    var body, second := [TestStmt(test, yes), ElseStmt(no)], [ElseStmt(no)];
    assert body[1..] == second && second[1..] == [] && second[0] == ElseStmt(no);
    hide Decide;
    var p := RunCode(no, false, None, w, ctx);
    assert RunCode(second, true, None, w, ctx).world == p.world;
    var d := Decide(test, None, w, ctx);
    if d.Yes? {
      var q := RunCode(yes, false, d.caps, w, ctx);
      assert RunCode(second[1..], true, None, q.world, ctx) == Through(q.world, None);
      assert RunCode(second, false, None, q.world, ctx).world == q.world;
    }
  }

  /** Inside a match, another match shadows its captures, and they are back behind it. */
  lemma NestedMatchRestores(t: Test, u: Test, d: string, e: string, w: World, ctx: Context, g: seq<string>, h: seq<string>)
    requires Decide(t, None, w, ctx) == Yes(Some(g)) && t.OnMatch? && g != []
    requires Decide(u, Some(g), w, ctx) == Yes(Some(h)) && u.OnMatch? && h != []
    ensures
      var inner := [TestStmt(u, [WriteStmt([Capture(0)], d)]), WriteStmt([Capture(0)], e)];
      CodeLines([TestStmt(t, inner)], [ctx], w) == Fine(w.(writes := w.writes + [(d, h[0]), (e, g[0])]))
  {
    hide Decide;
    var write, last := [WriteStmt([Capture(0)], d)], [WriteStmt([Capture(0)], e)];
    var inner := [TestStmt(u, write)] + last;
    var body := [TestStmt(t, inner)];
    var w1 := Wrote(w, d, h[0]);
    SinglePart(Capture(0), w.vars, Some(h), ctx);
    SinglePart(Capture(0), w.vars, Some(g), ctx);
    hide Resolve;
    assert write == write + [] && last == last + [] && body[1..] == [] && inner[0] == TestStmt(u, write) && inner[1..] == last;
    WriteThen([Capture(0)], d, h[0], [], false, Some(h), w, ctx);
    WriteThen([Capture(0)], e, g[0], [], false, Some(g), w1, ctx);
    var w2 := Wrote(w1, e, g[0]);
    assert RunCode(inner, false, Some(g), w, ctx) == Through(w2, Some(g));
    assert RunCode(body[1..], false, None, w2, ctx) == Through(w2, None);
    OneLine(body, ctx, w);
    assert w2.writes == w.writes + [(d, h[0]), (e, g[0])];
    assert inner == [TestStmt(u, write), WriteStmt([Capture(0)], e)];
  }
}
