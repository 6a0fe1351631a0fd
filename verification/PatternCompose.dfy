/**
 * Patterns compose: the outcomes of one pattern followed by another are the outcomes of
 * the second from where each outcome of the first ends, in order. A pattern in
 * brackets matches where the pattern does and captures exactly what it matches.
 */
module PatternCompose {
  import opened Options
  import opened Sequences
  import opened PatternSyntax
  import opened PatternText
  import opened PatternSemantics
  import opened PatternFacts
  import opened PatternSearch

  /** `a` and then `b`; nothing follows a `$` or a malformed item. */
  function Append(a: Pattern, b: Pattern): Pattern {
    match a
    case Done => b
    case Then(item, rest) => Then(item, Append(rest, b))
    case _ => a
  }

  lemma {:induction false} AppendValid(a: Pattern, b: Pattern)
    requires ValidPattern(a) && ValidPattern(b)
    ensures ValidPattern(Append(a, b))
    decreases a
  {
    if a.Then? {
      AppendValid(a.rest, b);
    }
  }

  /** A pattern that ends with its last item. */
  predicate Continues(a: Pattern) {
    match a
    case Done => true
    case Then(_, rest) => Continues(rest)
    case _ => false
  }

  /** `b` from the end of every outcome of the list, in order. */
  function Onward(ct: CharTypes, src: string, os: seq<Outcome>, b: Pattern): seq<Outcome>
    requires ValidPattern(b)
  {
    if os == [] then []
    else
      (if os[0].end <= |src| then Outcomes(ct, src, b, os[0].end, os[0].caps) else [])
      + Onward(ct, src, os[1..], b)
  }

  lemma {:induction false} OnwardAppend(ct: CharTypes, src: string, x: seq<Outcome>, y: seq<Outcome>, b: Pattern)
    requires ValidPattern(b)
    ensures Onward(ct, src, x + y, b) == Onward(ct, src, x, b) + Onward(ct, src, y, b)
    decreases |x|
  {
    hide Outcomes;
    if x == [] {
      assert x + y == y;
    } else {
      OnwardAppend(ct, src, x[1..], y, b);
      assert (x + y)[0] == x[0] && (x + y)[1..] == x[1..] + y;
      var first := if x[0].end <= |src| then Outcomes(ct, src, b, x[0].end, x[0].caps) else [];
      Regroup(first, Onward(ct, src, x[1..], b), Onward(ct, src, y, b));
    }
  }

  lemma {:induction false} LongestAppend(ct: CharTypes, src: string, text: string, a: Pattern, b: Pattern, s: nat, caps: seq<Capture>)
    requires s <= |src| && ItemText(text) && ValidPattern(a) && ValidPattern(b) && ValidPattern(Append(a, b)) && Continues(a)
    ensures LongestFirst(ct, src, text, Append(a, b), s, caps) == Onward(ct, src, LongestFirst(ct, src, text, a, s, caps), b)
    decreases a, 2, |src| - s
  {
    hide Outcomes, MatchItem, Onward, Append;
    OutcomesAppend(ct, src, a, b, s, caps);
    if SingleMatch(ct, src, s, text) {
      LongestAppend(ct, src, text, a, b, s + 1, caps);
    }
    OnwardAppend(ct, src, if SingleMatch(ct, src, s, text) then LongestFirst(ct, src, text, a, s + 1, caps) else [],
                 Outcomes(ct, src, a, s, caps), b);
    assert Onward(ct, src, [], b) == [] by { OnwardNone(ct, src, b); }
  }

  lemma {:induction false} ShortestAppend(ct: CharTypes, src: string, text: string, a: Pattern, b: Pattern, s: nat, caps: seq<Capture>)
    requires s <= |src| && ItemText(text) && ValidPattern(a) && ValidPattern(b) && ValidPattern(Append(a, b)) && Continues(a)
    ensures ShortestFirst(ct, src, text, Append(a, b), s, caps) == Onward(ct, src, ShortestFirst(ct, src, text, a, s, caps), b)
    decreases a, 2, |src| - s
  {
    hide Outcomes, MatchItem, Onward, Append;
    OutcomesAppend(ct, src, a, b, s, caps);
    if SingleMatch(ct, src, s, text) {
      ShortestAppend(ct, src, text, a, b, s + 1, caps);
    }
    OnwardAppend(ct, src, Outcomes(ct, src, a, s, caps),
                 if SingleMatch(ct, src, s, text) then ShortestFirst(ct, src, text, a, s + 1, caps) else [], b);
    assert Onward(ct, src, [], b) == [] by { OnwardNone(ct, src, b); }
  }

  lemma OnwardNone(ct: CharTypes, src: string, b: Pattern)
    requires ValidPattern(b)
    ensures Onward(ct, src, [], b) == []
  {
  }

  lemma {:induction false} SingleAppend(ct: CharTypes, src: string, text: string, quant: Quantifier, a: Pattern, b: Pattern, s: nat, caps: seq<Capture>)
    requires s <= |src| && ItemText(text) && ValidPattern(a) && ValidPattern(b) && ValidPattern(Append(a, b)) && Continues(a)
    ensures
      var item := Single(text, quant);
      Outcomes(ct, src, Then(item, Append(a, b)), s, caps) == Onward(ct, src, Outcomes(ct, src, Then(item, a), s, caps), b)
    decreases a, 3, 0
  {
    hide MatchItem, Onward, Append;
    OnwardNone(ct, src, b);
    var fits := SingleMatch(ct, src, s, text);
    match quant {
      case Greedy => LongestAppend(ct, src, text, a, b, s, caps);
      case GreedyPlus => if fits { LongestAppend(ct, src, text, a, b, s + 1, caps); }
      case Lazy => ShortestAppend(ct, src, text, a, b, s, caps);
      case Once => if fits { OutcomesAppend(ct, src, a, b, s + 1, caps); }
      case Optional =>
        OutcomesAppend(ct, src, a, b, s, caps);
        if fits { OutcomesAppend(ct, src, a, b, s + 1, caps); }
        OnwardAppend(ct, src, if fits then Outcomes(ct, src, a, s + 1, caps) else [], Outcomes(ct, src, a, s, caps), b);
    }
  }

  /** One pattern after another: the second continues from every outcome of the first, best first. */
  lemma {:induction false} OutcomesAppend(ct: CharTypes, src: string, a: Pattern, b: Pattern, s: nat, caps: seq<Capture>)
    requires s <= |src| && ValidPattern(a) && ValidPattern(b) && ValidPattern(Append(a, b)) && Continues(a)
    ensures Outcomes(ct, src, Append(a, b), s, caps) == Onward(ct, src, Outcomes(ct, src, a, s, caps), b)
    decreases a, 1, 0
  {
    if a.Done? {
      assert Outcomes(ct, src, a, s, caps)[1..] == [];
    } else {
      hide FrontierAt, BackRefEnd, BalanceEnd, CaptureIndex;
      var rest := a.rest;
      match a.item {
        case Open => OutcomesAppend(ct, src, rest, b, s, OpenAt(caps, s, Unfinished));
        case Position => OutcomesAppend(ct, src, rest, b, s, OpenAt(caps, s, Point));
        case Close =>
          var l := CaptureToClose(caps);
          if l >= 0 { OutcomesAppend(ct, src, rest, b, s, CloseAt(caps, l, s)); }
        case Balance(open, close) =>
          var e := BalanceEnd(src, s, open, close);
          if e.Some? { OutcomesAppend(ct, src, rest, b, e.value, caps); }
        case Frontier(_) => OutcomesAppend(ct, src, rest, b, s, caps);
        case BackRef(digit) =>
          var l := CaptureIndex(caps, digit);
          if l.Some? {
            var e := BackRefEnd(src, s, caps[l.value]);
            if e.Some? { OutcomesAppend(ct, src, rest, b, e.value, caps); }
          }
        case Single(text, quant) => SingleAppend(ct, src, text, quant, rest, b, s, caps);
      }
    }
  }

  // ---- brackets around a pattern ------------------------------------------------------------

  /** No brackets of its own. */
  predicate CaptureFree(pt: Pattern) {
    pt.Then? ==> !pt.item.Open? && !pt.item.Position? && !pt.item.Close? && CaptureFree(pt.rest)
  }

  lemma {:induction false} CaptureFreeKeeps(ct: CharTypes, src: string, pt: Pattern, s: nat, caps: seq<Capture>, o: Outcome)
    requires s <= |src| && ValidPattern(pt) && CaptureFree(pt) && Matches(ct, src, pt, s, caps, o)
    ensures o.caps == caps && s <= o.end <= |src|
    decreases pt
  {
    if pt.Then? {
      match pt.item {
        case Balance(open, close) =>
          var e :| BalancedTo(src, s, e, open, close) && Matches(ct, src, pt.rest, e, caps, o);
          CaptureFreeKeeps(ct, src, pt.rest, e, caps, o);
        case Frontier(_) => CaptureFreeKeeps(ct, src, pt.rest, s, caps, o);
        case BackRef(digit) =>
          CaptureFreeKeeps(ct, src, pt.rest, BackRefEnd(src, s, caps[CaptureIndex(caps, digit).value]).value, caps, o);
        case Single(text, quant) =>
          var n: nat :| CountAllowed(quant, n) && Run(ct, src, text, s, n) && Matches(ct, src, pt.rest, s + n, caps, o);
          CaptureFreeKeeps(ct, src, pt.rest, s + n, caps, o);
      }
    }
  }

  /** The same ends, with captures `caps`. */
  function WithCaptures(os: seq<Outcome>, caps: seq<Capture>): seq<Outcome> {
    seq(|os|, i requires 0 <= i < |os| => Outcome(os[i].end, caps))
  }

  lemma WithCapturesAppend(x: seq<Outcome>, y: seq<Outcome>, caps: seq<Capture>)
    ensures WithCaptures(x + y, caps) == WithCaptures(x, caps) + WithCaptures(y, caps)
  {
  }

  lemma {:induction false} LongestIgnores(ct: CharTypes, src: string, text: string, rest: Pattern, s: nat, caps: seq<Capture>, c: Capture)
    requires s <= |src| && ItemText(text) && ValidPattern(rest) && CaptureFree(rest) && c.extent.Unfinished?
    ensures LongestFirst(ct, src, text, rest, s, caps + [c]) == WithCaptures(LongestFirst(ct, src, text, rest, s, caps), caps + [c])
    decreases rest, 2, |src| - s
  {
    hide Outcomes, MatchItem, WithCaptures, CaptureFree;
    OutcomesIgnore(ct, src, rest, s, caps, c);
    var fits := SingleMatch(ct, src, s, text);
    if fits {
      LongestIgnores(ct, src, text, rest, s + 1, caps, c);
    }
    assert WithCaptures([], caps + [c]) == [] by { NoOutcomes(caps + [c]); }
    WithCapturesAppend(if fits then LongestFirst(ct, src, text, rest, s + 1, caps) else [], Outcomes(ct, src, rest, s, caps), caps + [c]);
  }

  lemma {:induction false} ShortestIgnores(ct: CharTypes, src: string, text: string, rest: Pattern, s: nat, caps: seq<Capture>, c: Capture)
    requires s <= |src| && ItemText(text) && ValidPattern(rest) && CaptureFree(rest) && c.extent.Unfinished?
    ensures ShortestFirst(ct, src, text, rest, s, caps + [c]) == WithCaptures(ShortestFirst(ct, src, text, rest, s, caps), caps + [c])
    decreases rest, 2, |src| - s
  {
    hide Outcomes, MatchItem, WithCaptures, CaptureFree;
    OutcomesIgnore(ct, src, rest, s, caps, c);
    var fits := SingleMatch(ct, src, s, text);
    if fits {
      ShortestIgnores(ct, src, text, rest, s + 1, caps, c);
    }
    assert WithCaptures([], caps + [c]) == [] by { NoOutcomes(caps + [c]); }
    WithCapturesAppend(Outcomes(ct, src, rest, s, caps), if fits then ShortestFirst(ct, src, text, rest, s + 1, caps) else [], caps + [c]);
  }

  lemma NoOutcomes(caps: seq<Capture>)
    ensures WithCaptures([], caps) == []
  {
  }

  lemma {:induction false} SingleIgnores(ct: CharTypes, src: string, text: string, quant: Quantifier, rest: Pattern, s: nat, caps: seq<Capture>, c: Capture)
    requires s <= |src| && ItemText(text) && ValidPattern(rest) && CaptureFree(rest) && c.extent.Unfinished?
    ensures
      var pt := Then(Single(text, quant), rest);
      Outcomes(ct, src, pt, s, caps + [c]) == WithCaptures(Outcomes(ct, src, pt, s, caps), caps + [c])
    decreases rest, 3, 0
  {
    hide MatchItem, WithCaptures, CaptureFree;
    NoOutcomes(caps + [c]);
    var fits := SingleMatch(ct, src, s, text);
    match quant {
      case Greedy => LongestIgnores(ct, src, text, rest, s, caps, c);
      case GreedyPlus => if fits { LongestIgnores(ct, src, text, rest, s + 1, caps, c); }
      case Lazy => ShortestIgnores(ct, src, text, rest, s, caps, c);
      case Once => if fits { OutcomesIgnore(ct, src, rest, s + 1, caps, c); }
      case Optional =>
        OutcomesIgnore(ct, src, rest, s, caps, c);
        if fits { OutcomesIgnore(ct, src, rest, s + 1, caps, c); }
        WithCapturesAppend(if fits then Outcomes(ct, src, rest, s + 1, caps) else [], Outcomes(ct, src, rest, s, caps), caps + [c]);
    }
  }

  /** A bracket that is still open does not change what a pattern without brackets matches. */
  lemma {:induction false} OutcomesIgnore(ct: CharTypes, src: string, pt: Pattern, s: nat, caps: seq<Capture>, c: Capture)
    requires s <= |src| && ValidPattern(pt) && CaptureFree(pt) && c.extent.Unfinished?
    ensures Outcomes(ct, src, pt, s, caps + [c]) == WithCaptures(Outcomes(ct, src, pt, s, caps), caps + [c])
    decreases pt, 1, 0
  {
    if pt.Then? {
      hide FrontierAt, BackRefEnd, BalanceEnd, WithCaptures;
      NoOutcomes(caps + [c]);
      var rest := pt.rest;
      match pt.item {
        case Balance(open, close) =>
          var e := BalanceEnd(src, s, open, close);
          if e.Some? { OutcomesIgnore(ct, src, rest, e.value, caps, c); }
        case Frontier(_) => OutcomesIgnore(ct, src, rest, s, caps, c);
        case BackRef(digit) =>
          var l := CaptureIndex(caps, digit);
          assert CaptureIndex(caps + [c], digit) == l;
          if l.Some? {
            assert (caps + [c])[l.value] == caps[l.value];
            var e := BackRefEnd(src, s, caps[l.value]);
            if e.Some? { OutcomesIgnore(ct, src, rest, e.value, caps, c); }
          }
        case Single(text, quant) => SingleIgnores(ct, src, text, quant, rest, s, caps, c);
      }
    }
  }

  /** The pattern `(p)`. */
  function Grouped(pt: Pattern): Pattern {
    Then(Open, Append(pt, Then(Close, Done)))
  }

  /** The same ends, each with one more capture: everything from `s` to that end. */
  function Bracketed(os: seq<Outcome>, s: nat, caps: seq<Capture>): seq<Outcome> {
    seq(|os|, i requires 0 <= i < |os| => Outcome(os[i].end, caps + [Capture(s, Length(os[i].end as int - s as int))]))
  }

  lemma CloseLast(ct: CharTypes, src: string, e: nat, s: nat, caps: seq<Capture>)
    requires e <= |src|
    ensures Outcomes(ct, src, Then(Close, Done), e, caps + [Capture(s, Unfinished)])
         == [Outcome(e, caps + [Capture(s, Length(e as int - s as int))])]
  {
    var open := caps + [Capture(s, Unfinished)];
    assert CaptureToClose(open) == |caps|;
    assert CloseAt(open, |caps|, e) == caps + [Capture(s, Length(e as int - s as int))];
  }

  lemma {:induction false} CloseAll(ct: CharTypes, src: string, os: seq<Outcome>, s: nat, caps: seq<Capture>)
    requires forall o <- os :: o.end <= |src|
    ensures Onward(ct, src, WithCaptures(os, caps + [Capture(s, Unfinished)]), Then(Close, Done)) == Bracketed(os, s, caps)
    decreases |os|
  {
    var open := WithCaptures(os, caps + [Capture(s, Unfinished)]);
    if os != [] {
      hide Outcomes;
      assert os[0] in os;
      CloseLast(ct, src, os[0].end, s, caps);
      CloseAll(ct, src, os[1..], s, caps);
      assert open[1..] == WithCaptures(os[1..], caps + [Capture(s, Unfinished)]);
      assert Bracketed(os, s, caps) == [Bracketed(os, s, caps)[0]] + Bracketed(os[1..], s, caps);
    }
  }

  /** A pattern in brackets matches where it does without them, in the same order, and captures exactly what it matches. */
  lemma GroupCaptures(ct: CharTypes, src: string, pt: Pattern, s: nat, caps: seq<Capture>)
    requires s <= |src| && ValidPattern(pt) && ValidPattern(Grouped(pt)) && Continues(pt) && CaptureFree(pt)
    ensures Outcomes(ct, src, Grouped(pt), s, caps) == Bracketed(Outcomes(ct, src, pt, s, caps), s, caps)
  {
    var os := Outcomes(ct, src, pt, s, caps);
    OutcomesAppend(ct, src, pt, Then(Close, Done), s, OpenAt(caps, s, Unfinished));
    OutcomesIgnore(ct, src, pt, s, caps, Capture(s, Unfinished));
    hide WithCaptures, Onward, Append;
    forall o | o in os
      ensures o.end <= |src|
    {
      OutcomesEnumerate(ct, src, pt, s, caps, o);
      CaptureFreeKeeps(ct, src, pt, s, caps, o);
    }
    CloseAll(ct, src, os, s, caps);
  }

  /** A search for `(p)` finds what a search for `p` finds, and reports the same stretch, now as a capture. */
  lemma {:induction false} GroupedSearch(ct: CharTypes, src: string, pt: Pattern, s: nat, anchored: bool)
    requires s <= |src| && ValidPattern(pt) && ValidPattern(Grouped(pt)) && Continues(pt) && CaptureFree(pt)
    ensures
      var plain, grouped := Leftmost(ct, src, pt, s, anchored), Leftmost(ct, src, Grouped(pt), s, anchored);
      && (plain.None? <==> grouped.None?)
      && (plain.Some? ==>
            var Hit(start, o) := plain.value;
            && s <= start <= o.end <= |src| && o.caps == []
            && grouped.value == Hit(start, Outcome(o.end, [Capture(start, Length(o.end - start))]))
            && Groups(grouped.value) == Groups(plain.value) == [Span(start, o.end)])
    decreases |src| - s
  {
    hide Grouped;
    GroupCaptures(ct, src, pt, s, []);
    var os := Outcomes(ct, src, pt, s, []);
    if os != [] {
      OutcomesEnumerate(ct, src, pt, s, [], os[0]);
      CaptureFreeKeeps(ct, src, pt, s, [], os[0]);
      hide Outcomes;
      assert Bracketed(os, s, [])[0] == Outcome(os[0].end, [] + [Capture(s, Length(os[0].end - s))]);
    } else if !anchored && s < |src| {
      hide Outcomes;
      GroupedSearch(ct, src, pt, s + 1, anchored);
    }
  }

  // ---- and on texts ---------------------------------------------------------------------

  lemma {:induction false} WriteAppend(a: Pattern, b: Pattern)
    requires Continues(a)
    ensures Write(Append(a, b)) == Write(a) + Write(b)
    decreases a
  {
    if a.Done? {
      assert "" + Write(b) == Write(b);
    } else {
      WriteAppend(a.rest, b);
      Regroup(WriteItem(a.item), Write(a.rest), Write(b));
    }
  }

  /** The search for the text `(p)`: found where `p` is, with the stretch `p` matches as its one group. */
  lemma GroupedPattern(ct: CharTypes, src: CString, pt: Pattern, p: CString, init: nat)
    requires init <= |src| && ValidPattern(pt) && ValidPattern(Grouped(pt)) && Continues(pt) && CaptureFree(pt)
    requires p == Write(Grouped(pt)) && Readable(Grouped(pt))
    ensures p == "(" + Write(pt) + ")"
    ensures
      var plain, grouped := Leftmost(ct, src, pt, init, false), Searched(ct, src, p, init);
      && (plain.None? <==> grouped.None?)
      && (plain.Some? ==>
            var Hit(start, o) := plain.value;
            grouped.value.start == start && grouped.value.outcome.end == o.end && Groups(grouped.value) == [Span(start, o.end)])
  {
    WriteAppend(pt, Then(Close, Done));
    assert Write(Then(Close, Done)) == ")" + "";
    assert "(" + (Write(pt) + ")") == "(" + Write(pt) + ")";
    ItemsOfText(Grouped(pt));
    GroupedSearch(ct, src, pt, init, false);
    assert p[0] == '(';
  }
}
