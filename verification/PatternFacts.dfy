/**
 * Facts about the meaning of patterns: the ordered list enumerates exactly the
 * match relation, repetition prefers the longest or the shortest run, captures
 * are laminar, and flaws of a pattern are visible in its text alone.
 */
module PatternFacts {
  import opened Options
  import opened PatternSyntax
  import opened PatternText
  import opened PatternSemantics

  // ---- balanced stretches -----------------------------------------------------

  lemma {:induction false} BalanceScanCorrect(src: string, s: nat, i: nat, depth: nat, open: char, close: char)
    requires s < i <= |src| && src[s] == open && depth > 0 && Nesting(src, s, i, open, close) == depth
    requires forall k :: s < k < i ==> Nesting(src, s, k, open, close) != 0
    ensures
      var r := BalanceScan(src, i, depth, open, close);
      forall j: nat :: BalancedTo(src, s, j, open, close) <==> r == Some(j)
    decreases |src| - i
  {
    if i < |src| {
      var next := if src[i] == close then depth - 1 else if src[i] == open then depth + 1 else depth;
      assert Nesting(src, s, i + 1, open, close) == next;
      if next != 0 {
        BalanceScanCorrect(src, s, i + 1, next, open, close);
      }
    }
  }

  /** `%bxy` ends where the nesting of x and y first returns to zero, and nowhere else. */
  lemma BalanceEndCorrect(src: string, s: nat, open: char, close: char)
    requires s <= |src|
    ensures
      var r := BalanceEnd(src, s, open, close);
      forall j: nat :: BalancedTo(src, s, j, open, close) <==> r == Some(j)
  {
    if s < |src| && src[s] == open {
      BalanceScanCorrect(src, s, s + 1, 1, open, close);
    }
  }

  // ---- the list enumerates the relation ------------------------------------------

  /** Runs of `n` items, then the rest of the pattern, with at least `least` items. */
  ghost predicate RunThen(ct: CharTypes, src: string, text: string, rest: Pattern, s: nat, least: nat, caps: seq<Capture>, o: Outcome)
    requires s <= |src| && ValidPattern(rest) && ItemText(text)
  {
    exists n: nat :: least <= n && Run(ct, src, text, s, n) && Matches(ct, src, rest, s + n, caps, o)
  }

  lemma RunThenUnfold(ct: CharTypes, src: string, text: string, rest: Pattern, s: nat, caps: seq<Capture>, o: Outcome)
    requires s <= |src| && ValidPattern(rest) && ItemText(text)
    ensures RunThen(ct, src, text, rest, s, 0, caps, o) <==>
            Matches(ct, src, rest, s, caps, o) || RunThen(ct, src, text, rest, s, 1, caps, o)
    ensures RunThen(ct, src, text, rest, s, 1, caps, o) <==>
            SingleMatch(ct, src, s, text) && RunThen(ct, src, text, rest, s + 1, 0, caps, o)
  {
    assert Run(ct, src, text, s, 0);
    assert s + 0 == s;
    if RunThen(ct, src, text, rest, s, 1, caps, o) {
      var n: nat :| 1 <= n && Run(ct, src, text, s, n) && Matches(ct, src, rest, s + n, caps, o);
      assert Run(ct, src, text, s + 1, n - 1) && s + 1 + (n - 1) == s + n;
    }
    if SingleMatch(ct, src, s, text) && RunThen(ct, src, text, rest, s + 1, 0, caps, o) {
      var n: nat :| Run(ct, src, text, s + 1, n) && Matches(ct, src, rest, s + 1 + n, caps, o);
      assert Run(ct, src, text, s, n + 1) && s + (n + 1) == s + 1 + n;
    }
  }

  lemma {:induction false} LongestEnumerates(ct: CharTypes, src: string, text: string, rest: Pattern, s: nat, caps: seq<Capture>, o: Outcome)
    requires s <= |src| && ValidPattern(rest) && ItemText(text)
    ensures o in LongestFirst(ct, src, text, rest, s, caps) <==> RunThen(ct, src, text, rest, s, 0, caps, o)
    decreases rest, 2, |src| - s
  {
    OutcomesEnumerate(ct, src, rest, s, caps, o);
    RunThenUnfold(ct, src, text, rest, s, caps, o);
    if SingleMatch(ct, src, s, text) {
      LongestEnumerates(ct, src, text, rest, s + 1, caps, o);
    }
  }

  lemma {:induction false} ShortestEnumerates(ct: CharTypes, src: string, text: string, rest: Pattern, s: nat, caps: seq<Capture>, o: Outcome)
    requires s <= |src| && ValidPattern(rest) && ItemText(text)
    ensures o in ShortestFirst(ct, src, text, rest, s, caps) <==> RunThen(ct, src, text, rest, s, 0, caps, o)
    decreases rest, 2, |src| - s
  {
    OutcomesEnumerate(ct, src, rest, s, caps, o);
    RunThenUnfold(ct, src, text, rest, s, caps, o);
    if SingleMatch(ct, src, s, text) {
      ShortestEnumerates(ct, src, text, rest, s + 1, caps, o);
    }
  }

  lemma {:induction false} SingleEnumerates(ct: CharTypes, src: string, text: string, quant: Quantifier, rest: Pattern, s: nat, caps: seq<Capture>, o: Outcome)
    requires s <= |src| && ValidPattern(rest) && ItemText(text)
    ensures
      var pt := Then(Single(text, quant), rest);
      o in Outcomes(ct, src, pt, s, caps) <==> Matches(ct, src, pt, s, caps, o)
    decreases rest, 3, 0
  {
    var pt := Then(Single(text, quant), rest);
    var fits := SingleMatch(ct, src, s, text);
    RunThenUnfold(ct, src, text, rest, s, caps, o);
    match quant {
      case Greedy =>
        LongestEnumerates(ct, src, text, rest, s, caps, o);
        assert Matches(ct, src, pt, s, caps, o) <==> RunThen(ct, src, text, rest, s, 0, caps, o);
      case GreedyPlus =>
        if fits { LongestEnumerates(ct, src, text, rest, s + 1, caps, o); }
        assert Matches(ct, src, pt, s, caps, o) <==> RunThen(ct, src, text, rest, s, 1, caps, o);
      case Lazy =>
        ShortestEnumerates(ct, src, text, rest, s, caps, o);
        assert Matches(ct, src, pt, s, caps, o) <==> RunThen(ct, src, text, rest, s, 0, caps, o);
      case _ =>
        OutcomesEnumerate(ct, src, rest, s, caps, o);
        if fits { OutcomesEnumerate(ct, src, rest, s + 1, caps, o); }
        AtMostOne(ct, src, text, quant, rest, s, caps, o);
    }
  }

  lemma AtMostOne(ct: CharTypes, src: string, text: string, quant: Quantifier, rest: Pattern, s: nat, caps: seq<Capture>, o: Outcome)
    requires s <= |src| && ValidPattern(rest) && ItemText(text) && (quant.Once? || quant.Optional?)
    ensures Matches(ct, src, Then(Single(text, quant), rest), s, caps, o) <==>
            (SingleMatch(ct, src, s, text) && Matches(ct, src, rest, s + 1, caps, o))
            || (quant.Optional? && Matches(ct, src, rest, s, caps, o))
  {
    assert Run(ct, src, text, s, 0) && s + 0 == s;
    assert Run(ct, src, text, s, 1) <==> SingleMatch(ct, src, s, text);
  }

  /** The ordered list holds exactly the outcomes the relation allows. */
  lemma {:induction false} OutcomesEnumerate(ct: CharTypes, src: string, pt: Pattern, s: nat, caps: seq<Capture>, o: Outcome)
    requires s <= |src| && ValidPattern(pt)
    ensures o in Outcomes(ct, src, pt, s, caps) <==> Matches(ct, src, pt, s, caps, o)
    decreases pt, 1, 0
  {
    if pt.Then? {
      var rest := pt.rest;
      match pt.item {
        case Open => OutcomesEnumerate(ct, src, rest, s, OpenAt(caps, s, Unfinished), o);
        case Position => OutcomesEnumerate(ct, src, rest, s, OpenAt(caps, s, Point), o);
        case Close =>
          var l := CaptureToClose(caps);
          if l >= 0 { OutcomesEnumerate(ct, src, rest, s, CloseAt(caps, l, s), o); }
        case Balance(open, close) =>
          BalanceEndCorrect(src, s, open, close);
          var e := BalanceEnd(src, s, open, close);
          if e.Some? { OutcomesEnumerate(ct, src, rest, e.value, caps, o); }
        case Frontier(_) => OutcomesEnumerate(ct, src, rest, s, caps, o);
        case BackRef(digit) =>
          var l := CaptureIndex(caps, digit);
          if l.Some? {
            var e := BackRefEnd(src, s, caps[l.value]);
            if e.Some? { OutcomesEnumerate(ct, src, rest, e.value, caps, o); }
          }
        case Single(text, quant) => SingleEnumerates(ct, src, text, quant, rest, s, caps, o);
      }
    }
  }

  // ---- preference -----------------------------------------------------------------

  /**
   * Trying a run of `n` items when no longer run leads anywhere: the rest of the
   * pattern after exactly `n` items decides, and its first outcome is the overall first.
   */
  lemma {:induction false} LongestBacktracks(ct: CharTypes, src: string, text: string, rest: Pattern, s: nat, n: nat, caps: seq<Capture>)
    requires s <= |src| && ItemText(text) && ValidPattern(rest) && Run(ct, src, text, s, n)
    requires SingleMatch(ct, src, s + n, text) ==> LongestFirst(ct, src, text, rest, s + n + 1, caps) == []
    ensures LongestFirst(ct, src, text, rest, s + n, caps) == Outcomes(ct, src, rest, s + n, caps)
    ensures Outcomes(ct, src, rest, s + n, caps) != [] ==>
              First(LongestFirst(ct, src, text, rest, s, caps)) == First(Outcomes(ct, src, rest, s + n, caps))
    decreases n
  {
    if n > 0 {
      LongestBacktracks(ct, src, text, rest, s + 1, n - 1, caps);
    }
  }

  /** What the tries from `n` items up cost is part of the whole price, and all of it if one of them works. */
  lemma {:induction false} LongestCosts(ct: CharTypes, src: string, text: string, rest: Pattern, s: nat, n: nat, caps: seq<Capture>, most: nat)
    requires s <= |src| && ItemText(text) && ValidPattern(rest) && Run(ct, src, text, s, n)
    ensures
      var part, whole := LongestPrice(ct, src, text, rest, s + n, caps, most), LongestPrice(ct, src, text, rest, s, caps, most);
      && part.misses <= whole.misses && part.calls <= whole.calls && (part.flaw ==> whole.flaw)
      && (LongestFirst(ct, src, text, rest, s + n, caps) != [] ==>
            LongestFirst(ct, src, text, rest, s, caps) != [] && part == whole)
    decreases n
  {
    hide Outcomes, PriceOf, MatchItem;
    if n > 0 {
      LongestCosts(ct, src, text, rest, s + 1, n - 1, caps, most);
      assert s + 1 + (n - 1) == s + n;
    }
  }

  /** A greedy repetition settles on the longest run after which the rest can match. */
  lemma GreedyPrefersLongest(ct: CharTypes, src: string, text: string, rest: Pattern, s: nat, n: nat, caps: seq<Capture>)
    requires s <= |src| && ItemText(text) && ValidPattern(rest)
    requires Run(ct, src, text, s, n) && Outcomes(ct, src, rest, s + n, caps) != []
    requires forall m: nat :: n < m && Run(ct, src, text, s, m) ==> Outcomes(ct, src, rest, s + m, caps) == []
    ensures First(Outcomes(ct, src, Then(Single(text, Greedy), rest), s, caps)) == First(Outcomes(ct, src, rest, s + n, caps))
  {
    if SingleMatch(ct, src, s + n, text) {
      NoLongerRuns(ct, src, text, rest, s, n + 1, caps);
    }
    LongestBacktracks(ct, src, text, rest, s, n, caps);
  }

  lemma {:induction false} NoLongerRuns(ct: CharTypes, src: string, text: string, rest: Pattern, s: nat, n: nat, caps: seq<Capture>)
    requires s <= |src| && ItemText(text) && ValidPattern(rest) && Run(ct, src, text, s, n)
    requires forall m: nat :: n <= m && Run(ct, src, text, s, m) ==> Outcomes(ct, src, rest, s + m, caps) == []
    ensures LongestFirst(ct, src, text, rest, s + n, caps) == []
    decreases |src| - n
  {
    assert Outcomes(ct, src, rest, s + n, caps) == [];
    if SingleMatch(ct, src, s + n, text) {
      NoLongerRuns(ct, src, text, rest, s, n + 1, caps);
    }
  }

  /** A lazy repetition settles on the shortest run after which the rest can match. */
  lemma {:induction false} LazyPrefersShortest(ct: CharTypes, src: string, text: string, rest: Pattern, s: nat, n: nat, caps: seq<Capture>)
    requires s <= |src| && ItemText(text) && ValidPattern(rest)
    requires Run(ct, src, text, s, n) && Outcomes(ct, src, rest, s + n, caps) != []
    requires forall e :: s <= e < s + n ==> Outcomes(ct, src, rest, e, caps) == []
    ensures First(Outcomes(ct, src, Then(Single(text, Lazy), rest), s, caps)) == First(Outcomes(ct, src, rest, s + n, caps))
    decreases n
  {
    if n > 0 {
      LazyPrefersShortest(ct, src, text, rest, s + 1, n - 1, caps);
      assert Outcomes(ct, src, rest, s, caps) == [];
      assert s + 1 + (n - 1) == s + n;
    }
  }

  // ---- the price is bounded by the pattern ------------------------------------------

  function ItemCount(pt: Pattern): nat {
    if pt.Then? then 1 + ItemCount(pt.rest) else 0
  }

  lemma {:induction false} LengthOfText(pat: CString, p: nat)
    requires p <= |pat|
    ensures ItemCount(Parse(pat, p)) <= |pat| - p
    decreases |pat| - p
  {
    if Parse(pat, p).Then? {
      var q := FirstItem(pat, p);
      LengthOfText(pat, q);
    }
  }

  lemma {:induction false} LongestBounds(ct: CharTypes, src: string, text: string, rest: Pattern, s: nat, caps: seq<Capture>, most: nat)
    requires s <= |src| && ItemText(text) && ValidPattern(rest)
    ensures
      var price := LongestPrice(ct, src, text, rest, s, caps, most);
      price.calls <= 1 + ItemCount(rest) && (price.flaw ==> Flawed(rest, Shape(caps), most))
    decreases rest, 2, |src| - s
  {
    hide Outcomes, PriceOf, LongestFirst, MatchItem, ItemCount, Flawed;
    PriceBounds(ct, src, rest, s, caps, most);
    if SingleMatch(ct, src, s, text) {
      LongestBounds(ct, src, text, rest, s + 1, caps, most);
    }
  }

  lemma {:induction false} ShortestBounds(ct: CharTypes, src: string, text: string, rest: Pattern, s: nat, caps: seq<Capture>, most: nat)
    requires s <= |src| && ItemText(text) && ValidPattern(rest)
    ensures
      var price := ShortestPrice(ct, src, text, rest, s, caps, most);
      price.calls <= 1 + ItemCount(rest) && (price.flaw ==> Flawed(rest, Shape(caps), most))
    decreases rest, 2, |src| - s
  {
    hide Outcomes, PriceOf, LongestFirst, MatchItem, ItemCount, Flawed;
    PriceBounds(ct, src, rest, s, caps, most);
    if SingleMatch(ct, src, s, text) {
      ShortestBounds(ct, src, text, rest, s + 1, caps, most);
    }
  }

  lemma {:induction false} SingleBounds(ct: CharTypes, src: string, text: string, quant: Quantifier, rest: Pattern, s: nat, caps: seq<Capture>, most: nat)
    requires s <= |src| && ItemText(text) && ValidPattern(rest)
    ensures
      var price := PriceOf(ct, src, Then(Single(text, quant), rest), s, caps, most);
      price.calls <= 1 + ItemCount(rest) && (price.flaw ==> Flawed(rest, Shape(caps), most))
    decreases rest, 3, 0
  {
    hide Outcomes, LongestPrice, ShortestPrice, MatchItem, ItemCount, Flawed;
    PriceBounds(ct, src, rest, s, caps, most);
    LongestBounds(ct, src, text, rest, s, caps, most);
    ShortestBounds(ct, src, text, rest, s, caps, most);
    if s < |src| {
      PriceBounds(ct, src, rest, s + 1, caps, most);
      LongestBounds(ct, src, text, rest, s + 1, caps, most);
    }
  }

  /** No more calls nest than the pattern has items, and a flaw run into is one of the text. */
  lemma {:induction false} PriceBounds(ct: CharTypes, src: string, pt: Pattern, s: nat, caps: seq<Capture>, most: nat)
    requires s <= |src| && ValidPattern(pt)
    ensures
      var price := PriceOf(ct, src, pt, s, caps, most);
      price.calls <= ItemCount(pt) && (price.flaw ==> Flawed(pt, Shape(caps), most))
    decreases pt, 1, 0
  {
    if pt.Then? {
      hide Outcomes, SingleMatch, FrontierAt, BackRefEnd, BalanceEnd, LongestPrice, ShortestPrice;
      ShapeOfSteps(caps, s);
      var rest := pt.rest;
      match pt.item {
        case Open => PriceBounds(ct, src, rest, s, OpenAt(caps, s, Unfinished), most);
        case Position => PriceBounds(ct, src, rest, s, OpenAt(caps, s, Point), most);
        case Close =>
          var l := CaptureToClose(caps);
          if l >= 0 { PriceBounds(ct, src, rest, s, CloseAt(caps, l, s), most); }
        case Balance(open, close) =>
          var e := BalanceEnd(src, s, open, close);
          if e.Some? { PriceBounds(ct, src, rest, e.value, caps, most); }
        case Frontier(_) => PriceBounds(ct, src, rest, s, caps, most);
        case BackRef(digit) =>
          var l := CaptureIndex(caps, digit);
          if l.Some? {
            var e := BackRefEnd(src, s, caps[l.value]);
            if e.Some? { PriceBounds(ct, src, rest, e.value, caps, most); }
          }
        case Single(text, quant) => SingleBounds(ct, src, text, quant, rest, s, caps, most);
      }
    }
  }

  // ---- captures are laminar -----------------------------------------------------------

  /** Where a capture stops, as far as the subject has been read up to `s`. */
  function Stop(c: Capture, s: nat): int {
    match c.extent
    case Unfinished => s
    case Point => c.init
    case Length(n) => c.init + n
  }

  /** Two captures, the first opened before the second, are disjoint or nested. */
  predicate NestedOrDisjoint(c: Capture, d: Capture, s: nat) {
    c.init <= d.init
    && (c.extent.Unfinished? || Stop(c, s) <= d.init || (!d.extent.Unfinished? && Stop(d, s) <= Stop(c, s)))
  }

  ghost predicate Laminar(caps: seq<Capture>, lo: nat, s: nat) {
    (forall i :: 0 <= i < |caps| ==> lo <= caps[i].init <= Stop(caps[i], s) <= s)
    && forall i, j :: 0 <= i < j < |caps| ==> NestedOrDisjoint(caps[i], caps[j], s)
  }

  lemma OpenKeepsLaminar(caps: seq<Capture>, lo: nat, s: nat, extent: Extent)
    requires Laminar(caps, lo, s) && lo <= s && !extent.Length?
    ensures Laminar(OpenAt(caps, s, extent), lo, s)
  {
  }

  lemma CloseKeepsLaminar(caps: seq<Capture>, lo: nat, s: nat)
    requires Laminar(caps, lo, s) && CaptureToClose(caps) >= 0
    ensures Laminar(CloseAt(caps, CaptureToClose(caps), s), lo, s)
  {
    var l := CaptureToClose(caps);
    var closed := CloseAt(caps, l, s);
    forall i, j | 0 <= i < j < |closed|
      ensures NestedOrDisjoint(closed[i], closed[j], s)
    {
      assert NestedOrDisjoint(caps[i], caps[j], s);
    }
  }

  lemma ReadingKeepsLaminar(caps: seq<Capture>, lo: nat, s: nat, s': nat)
    requires Laminar(caps, lo, s) && s <= s'
    ensures Laminar(caps, lo, s')
  {
    forall i, j | 0 <= i < j < |caps|
      ensures NestedOrDisjoint(caps[i], caps[j], s')
    {
      assert NestedOrDisjoint(caps[i], caps[j], s);
    }
  }

  /**
   * Captures of every match lie inside the stretch matched and are pairwise nested
   * or disjoint, because ')' closes the capture opened last.
   */
  lemma {:induction false} MatchesLaminar(ct: CharTypes, src: string, pt: Pattern, lo: nat, s: nat, caps: seq<Capture>, o: Outcome)
    requires lo <= s <= |src| && ValidPattern(pt) && Laminar(caps, lo, s) && Matches(ct, src, pt, s, caps, o)
    ensures s <= o.end <= |src| && Laminar(o.caps, lo, o.end)
    decreases pt
  {
    if pt.Then? {
      var rest := pt.rest;
      match pt.item {
        case Open =>
          OpenKeepsLaminar(caps, lo, s, Unfinished);
          MatchesLaminar(ct, src, rest, lo, s, OpenAt(caps, s, Unfinished), o);
        case Position =>
          OpenKeepsLaminar(caps, lo, s, Point);
          MatchesLaminar(ct, src, rest, lo, s, OpenAt(caps, s, Point), o);
        case Close =>
          CloseKeepsLaminar(caps, lo, s);
          MatchesLaminar(ct, src, rest, lo, s, CloseAt(caps, CaptureToClose(caps), s), o);
        case Balance(open, close) =>
          var e :| BalancedTo(src, s, e, open, close) && Matches(ct, src, rest, e, caps, o);
          ReadingKeepsLaminar(caps, lo, s, e);
          MatchesLaminar(ct, src, rest, lo, e, caps, o);
        case Frontier(_) => MatchesLaminar(ct, src, rest, lo, s, caps, o);
        case BackRef(digit) =>
          var e := BackRefEnd(src, s, caps[CaptureIndex(caps, digit).value]).value;
          ReadingKeepsLaminar(caps, lo, s, e);
          MatchesLaminar(ct, src, rest, lo, e, caps, o);
        case Single(text, quant) =>
          var n: nat :| CountAllowed(quant, n) && Run(ct, src, text, s, n) && Matches(ct, src, rest, s + n, caps, o);
          ReadingKeepsLaminar(caps, lo, s, s + n);
          MatchesLaminar(ct, src, rest, lo, s + n, caps, o);
      }
    }
  }

  // ---- flaws of the pattern text --------------------------------------------------------

  /** Which captures are still open: all that the well-formedness of a pattern depends on. */
  function Shape(caps: seq<Capture>): seq<bool> {
    seq(|caps|, i requires 0 <= i < |caps| => caps[i].extent.Unfinished?)
  }

  function LastOpen(shape: seq<bool>): (l: int)
    ensures -1 <= l < |shape|
    ensures l >= 0 ==> shape[l]
    ensures forall k :: l < k < |shape| ==> !shape[k]
  {
    if |shape| == 0 then -1
    else if shape[|shape| - 1] then |shape| - 1
    else LastOpen(shape[..|shape| - 1])
  }

  /**
   * The pattern is malformed, opens more than `most` captures, closes or refers to a
   * capture that is not there, or leaves one open. No subject is needed to tell.
   */
  predicate Flawed(pt: Pattern, shape: seq<bool>, most: nat) {
    match pt
    case Done => true in shape
    case EndAnchor => true in shape
    case Malformed => true
    case Then(item, rest) =>
      match item
      case Open => |shape| >= most || Flawed(rest, shape + [true], most)
      case Position => |shape| >= most || Flawed(rest, shape + [false], most)
      case Close => LastOpen(shape) < 0 || Flawed(rest, shape[LastOpen(shape) := false], most)
      case BackRef(digit) =>
        var l := digit as int - '1' as int;
        l < 0 || l >= |shape| || shape[l] || Flawed(rest, shape, most)
      case _ => Flawed(rest, shape, most)
  }

  lemma ShapeOfSteps(caps: seq<Capture>, s: nat)
    ensures Shape(OpenAt(caps, s, Unfinished)) == Shape(caps) + [true]
    ensures Shape(OpenAt(caps, s, Point)) == Shape(caps) + [false]
    ensures LastOpen(Shape(caps)) == CaptureToClose(caps)
    ensures var l := CaptureToClose(caps); l >= 0 ==> Shape(CloseAt(caps, l, s)) == Shape(caps)[l := false]
  {
    var l := CaptureToClose(caps);
    assert l >= 0 ==> Shape(caps)[l];
    assert LastOpen(Shape(caps)) >= 0 ==> caps[LastOpen(Shape(caps))].extent.Unfinished?;
  }

  /** A match that ends with a capture still open has a flawed pattern. */
  lemma {:induction false} UnfinishedMeansFlawed(ct: CharTypes, src: string, pt: Pattern, s: nat, caps: seq<Capture>, o: Outcome, most: nat)
    requires s <= |src| && ValidPattern(pt) && Matches(ct, src, pt, s, caps, o)
    requires exists c :: c in o.caps && c.extent.Unfinished?
    ensures Flawed(pt, Shape(caps), most)
    decreases pt
  {
    ShapeOfSteps(caps, s);
    if !pt.Then? {
      var i :| 0 <= i < |caps| && caps[i].extent.Unfinished?;
      assert Shape(caps)[i];
    } else {
      var rest := pt.rest;
      match pt.item {
        case Open => UnfinishedMeansFlawed(ct, src, rest, s, OpenAt(caps, s, Unfinished), o, most);
        case Position => UnfinishedMeansFlawed(ct, src, rest, s, OpenAt(caps, s, Point), o, most);
        case Close => UnfinishedMeansFlawed(ct, src, rest, s, CloseAt(caps, CaptureToClose(caps), s), o, most);
        case Balance(open, close) =>
          var e :| BalancedTo(src, s, e, open, close) && Matches(ct, src, rest, e, caps, o);
          UnfinishedMeansFlawed(ct, src, rest, e, caps, o, most);
        case Frontier(_) => UnfinishedMeansFlawed(ct, src, rest, s, caps, o, most);
        case BackRef(digit) =>
          var e := BackRefEnd(src, s, caps[CaptureIndex(caps, digit).value]).value;
          UnfinishedMeansFlawed(ct, src, rest, e, caps, o, most);
        case Single(text, quant) =>
          var n: nat :| CountAllowed(quant, n) && Run(ct, src, text, s, n) && Matches(ct, src, rest, s + n, caps, o);
          UnfinishedMeansFlawed(ct, src, rest, s + n, caps, o, most);
      }
    }
  }
}
