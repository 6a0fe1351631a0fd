/**
 * Matching by positions: a match is a walk through the subject, one position between
 * any two items, and what is captured is what lies between the positions at which the
 * brackets were passed. The match relation, which threads a capture table, is proved
 * to be exactly this.
 */
module PatternWalk {
  import opened Options
  import opened PatternSyntax
  import opened PatternSemantics
  import opened PatternFacts
  import opened PatternSearch

  function Items(pt: Pattern): seq<Item> {
    if pt.Then? then [pt.item] + Items(pt.rest) else []
  }

  /** How a pattern ends: with nothing, with `$`, or with a malformed item. */
  function Tail(pt: Pattern): Pattern {
    if pt.Then? then Tail(pt.rest) else pt
  }

  // ---- brackets ---------------------------------------------------------------------

  /** A bracket of the pattern: the items that open and close it; `()` marks a point. */
  datatype Bracket = Pair(open: nat, close: nat) | Unclosed(open: nat) | Mark(open: nat)

  /** The bracket opened last among those still unclosed, or -1. */
  function Innermost(bs: seq<Bracket>): (l: int)
    ensures -1 <= l < |bs|
    ensures l >= 0 ==> bs[l].Unclosed?
    ensures forall k :: l < k < |bs| ==> !bs[k].Unclosed?
  {
    if |bs| == 0 then -1
    else if bs[|bs| - 1].Unclosed? then |bs| - 1
    else Innermost(bs[..|bs| - 1])
  }

  /** The brackets among the first `i` items. */
  function Brackets(items: seq<Item>, i: nat): (bs: seq<Bracket>)
    requires i <= |items|
    ensures Passed(bs, i)
  {
    if i == 0 then []
    else
      var bs := Brackets(items, i - 1);
      match items[i - 1]
      case Open => bs + [Unclosed(i - 1)]
      case Position => bs + [Mark(i - 1)]
      case Close => if Innermost(bs) < 0 then bs else Closed(bs, i - 1)
      case _ => bs
  }

  function Closed(bs: seq<Bracket>, i: nat): (r: seq<Bracket>)
    requires Innermost(bs) >= 0 && Passed(bs, i)
    ensures Passed(r, i + 1)
  {
    bs[Innermost(bs) := Pair(bs[Innermost(bs)].open, i)]
  }

  // ---- walks ---------------------------------------------------------------------------

  /** What a bracket captures on a walk. */
  function Captured(b: Bracket, pos: seq<nat>): Capture
    requires b.open < |pos| && (b.Pair? ==> b.close < |pos|)
  {
    match b
    case Pair(open, close) => Capture(pos[open], Length(pos[close] as int - pos[open] as int))
    case Unclosed(open) => Capture(pos[open], Unfinished)
    case Mark(open) => Capture(pos[open], Point)
  }

  /** The brackets are among the items passed so far. */
  predicate Passed(bs: seq<Bracket>, n: nat) {
    forall k :: 0 <= k < |bs| ==> bs[k].open < n && (bs[k].Pair? ==> bs[k].close < n)
  }

  function CapturesOf(bs: seq<Bracket>, pos: seq<nat>): (caps: seq<Capture>)
    requires Passed(bs, |pos|)
    ensures |caps| == |bs| && forall k :: 0 <= k < |bs| ==> caps[k] == Captured(bs[k], pos)
  {
    seq(|bs|, k requires 0 <= k < |bs| => Captured(bs[k], pos))
  }

  /** What the brackets among the first `i` items captured. */
  function CapturesAt(items: seq<Item>, i: nat, pos: seq<nat>): seq<Capture>
    requires i <= |items| && i < |pos|
  {
    CapturesOf(Brackets(items, i), pos)
  }

  /** The text a closed bracket captured reads again from `p` to `q`. */
  predicate Repeats(src: string, b: Bracket, pos: seq<nat>, p: nat, q: nat)
    requires b.open < |pos| && (b.Pair? ==> b.close < |pos|) && p <= q <= |src|
  {
    b.Pair? && pos[b.open] <= pos[b.close] <= |src| && src[p..q] == src[pos[b.open]..pos[b.close]]
  }

  /** Item `i` of the pattern reads the subject from `pos[i]` to `pos[i + 1]`. */
  ghost predicate Reads(ct: CharTypes, src: string, items: seq<Item>, i: nat, pos: seq<nat>)
    requires i < |items| && i + 1 < |pos| && ValidItem(items[i])
  {
    var p, q := pos[i], pos[i + 1];
    p <= q <= |src| &&
    match items[i]
    case Open => q == p
    case Position => q == p
    case Close => q == p && Innermost(Brackets(items, i)) >= 0
    case Balance(x, y) => BalancedTo(src, p, q, x, y)
    case Frontier(set_) =>
      q == p && !MatchBracketClass(ct, if p == 0 then '\0' else src[p - 1], set_)
      && MatchBracketClass(ct, if p == |src| then '\0' else src[p], set_)
    case BackRef(digit) =>
      var bs, l := Brackets(items, i), digit as int - '1' as int;
      0 <= l < |bs| && Repeats(src, bs[l], pos, p, q)
    case Single(text, quant) =>
      (forall k :: p <= k < q ==> MatchItem(ct, src[k], text))
      && match quant
         case Once => q == p + 1
         case Optional => q <= p + 1
         case GreedyPlus => q > p
         case _ => true
  }

  ghost predicate ValidItems(items: seq<Item>) {
    forall i :: 0 <= i < |items| ==> ValidItem(items[i])
  }

  lemma {:induction false} ItemsAreValid(pt: Pattern)
    requires ValidPattern(pt)
    ensures ValidItems(Items(pt))
    decreases pt
  {
    if pt.Then? {
      ItemsAreValid(pt.rest);
    }
  }

  /** The items from `i` on read along `pos`, and the pattern's end allows the last position. */
  ghost predicate WalksFrom(ct: CharTypes, src: string, items: seq<Item>, tail: Pattern, i: nat, pos: seq<nat>)
    requires ValidItems(items) && i <= |items| && |pos| == |items| + 1
  {
    (forall j :: i <= j < |items| ==> Reads(ct, src, items, j, pos))
    && pos[|items|] <= |src| && (tail.Done? || (tail.EndAnchor? && pos[|items|] == |src|))
  }

  ghost predicate Walk(ct: CharTypes, src: string, pt: Pattern, s: nat, pos: seq<nat>, o: Outcome)
    requires ValidPattern(pt)
  {
    ItemsAreValid(pt);
    var items := Items(pt);
    |pos| == |items| + 1 && pos[0] == s && WalksFrom(ct, src, items, Tail(pt), 0, pos)
    && o == Outcome(pos[|items|], CapturesAt(items, |items|, pos))
  }

  // ---- captures step by step -------------------------------------------------------------

  lemma InnermostIsLastOpen(bs: seq<Bracket>, pos: seq<nat>)
    requires Passed(bs, |pos|)
    ensures Innermost(bs) == CaptureToClose(CapturesOf(bs, pos))
  {
    var caps := CapturesOf(bs, pos);
    var l, m := Innermost(bs), CaptureToClose(caps);
    assert l >= 0 ==> caps[l] == Captured(bs[l], pos);
    assert m >= 0 ==> caps[m] == Captured(bs[m], pos);
  }

  lemma CaptureOpened(bs: seq<Bracket>, b: Bracket, pos: seq<nat>)
    requires Passed(bs + [b], |pos|) && Passed(bs, |pos|)
    ensures CapturesOf(bs + [b], pos) == CapturesOf(bs, pos) + [Captured((bs + [b])[|bs|], pos)]
  {
  }

  lemma CaptureClosed(bs: seq<Bracket>, i: nat, pos: seq<nat>)
    requires Passed(bs, i) && i < |pos| && Innermost(bs) >= 0
    ensures CapturesOf(Closed(bs, i), pos) == CloseAt(CapturesOf(bs, pos), Innermost(bs), pos[i])
  {
    var l := Innermost(bs);
    assert CapturesOf(bs, pos)[l] == Captured(bs[l], pos);
  }

  /** Passing item `i` changes the captures as the capture table is changed. */
  lemma CapturesStep(items: seq<Item>, i: nat, pos: seq<nat>)
    requires i < |items| && i + 1 < |pos|
    ensures
      var caps, next := CapturesAt(items, i, pos), CapturesAt(items, i + 1, pos);
      var l := CaptureToClose(caps);
      && l == Innermost(Brackets(items, i))
      && (items[i].Open? ==> next == OpenAt(caps, pos[i], Unfinished))
      && (items[i].Position? ==> next == OpenAt(caps, pos[i], Point))
      && (items[i].Close? && l >= 0 ==> next == CloseAt(caps, l, pos[i]))
      && (!items[i].Open? && !items[i].Position? && !items[i].Close? ==> next == caps)
  {
    hide CapturesOf, Innermost, CaptureToClose;
    var bs := Brackets(items, i);
    InnermostIsLastOpen(bs, pos);
    if items[i].Open? {
      CaptureOpened(bs, Unclosed(i), pos);
    } else if items[i].Position? {
      CaptureOpened(bs, Mark(i), pos);
    } else if items[i].Close? && Innermost(bs) >= 0 {
      CaptureClosed(bs, i, pos);
    }
  }

  /** Captures depend on the positions passed so far only. */
  lemma CapturesAgree(items: seq<Item>, i: nat, pos: seq<nat>, pos': seq<nat>)
    requires i <= |items| && i < |pos| && i < |pos'| && pos[..i] == pos'[..i]
    ensures CapturesAt(items, i, pos) == CapturesAt(items, i, pos')
  {
    var bs := Brackets(items, i);
    hide Brackets;
    assert forall j :: 0 <= j < i ==> pos[j] == pos[..i][j] && pos'[j] == pos'[..i][j];
  }

  lemma ReadsAgree(ct: CharTypes, src: string, items: seq<Item>, i: nat, pos: seq<nat>, pos': seq<nat>)
    requires i < |items| && ValidItem(items[i]) && i + 1 < |pos| && i + 1 < |pos'| && pos[..i + 2] == pos'[..i + 2]
    ensures Reads(ct, src, items, i, pos) <==> Reads(ct, src, items, i, pos')
  {
    hide Brackets, MatchItem, MatchBracketClass, BalancedTo;
    assert forall j :: 0 <= j < i + 2 ==> pos[j] == pos[..i + 2][j] && pos'[j] == pos'[..i + 2][j];
  }

  // ---- a walk is a match ------------------------------------------------------------------

  /** The text a bracket captured, found again, is a back-reference to it. */
  lemma RepeatIsBackRef(src: string, b: Bracket, pos: seq<nat>, p: nat, q: nat)
    requires b.open < |pos| && (b.Pair? ==> b.close < |pos|) && p <= |src|
    ensures BackRefEnd(src, p, Captured(b, pos)) == Some(q) <==> p <= q <= |src| && Repeats(src, b, pos, p, q)
  {
    if b.Pair? && pos[b.open] <= pos[b.close] <= |src| {
      var n := pos[b.close] - pos[b.open];
      if p <= q <= |src| {
        assert |src[p..q]| == q - p && |src[pos[b.open]..pos[b.close]]| == n;
      }
    }
  }

  lemma StepForward(ct: CharTypes, src: string, pt: Pattern, items: seq<Item>, i: nat, pos: seq<nat>, o: Outcome)
    requires ValidPattern(pt) && pt.Then? && i < |items| && items[i] == pt.item && i + 1 < |pos| && ValidItem(items[i])
    requires Reads(ct, src, items, i, pos) && Matches(ct, src, pt.rest, pos[i + 1], CapturesAt(items, i + 1, pos), o)
    ensures Matches(ct, src, pt, pos[i], CapturesAt(items, i, pos), o)
  {
    hide Brackets, MatchItem, MatchBracketClass, BalancedTo, CaptureToClose, Innermost, CapturesOf, BackRefEnd;
    CapturesStep(items, i, pos);
    var p, q, bs := pos[i], pos[i + 1], Brackets(items, i);
    if pt.item.BackRef? {
      var l := pt.item.digit as int - '1' as int;
      RepeatIsBackRef(src, bs[l], pos, p, q);
      assert CapturesAt(items, i, pos)[l] == Captured(bs[l], pos);
    } else if pt.item.Single? {
      assert Run(ct, src, pt.item.text, p, q - p) && CountAllowed(pt.item.quant, q - p) && p + (q - p) == q;
    }
  }

  lemma {:induction false} MatchOfWalk(ct: CharTypes, src: string, pt: Pattern, items: seq<Item>, i: nat, pos: seq<nat>)
    requires ValidPattern(pt) && ValidItems(items) && i <= |items| && items[i..] == Items(pt) && |pos| == |items| + 1
    requires WalksFrom(ct, src, items, Tail(pt), i, pos)
    ensures pos[i] <= |src|
    ensures Matches(ct, src, pt, pos[i], CapturesAt(items, i, pos), Outcome(pos[|items|], CapturesAt(items, |items|, pos)))
    decreases pt
  {
    hide Reads, CapturesAt;
    if pt.Then? {
      assert items[i..][0] == items[i] && items[i..][1..] == items[i + 1..] && Items(pt)[1..] == Items(pt.rest);
      MatchOfWalk(ct, src, pt.rest, items, i + 1, pos);
      hide Matches;
      assert Reads(ct, src, items, i, pos);
      ReadsForward(ct, src, items, i, pos);
      StepForward(ct, src, pt, items, i, pos, Outcome(pos[|items|], CapturesAt(items, |items|, pos)));
    }
  }

  lemma ReadsForward(ct: CharTypes, src: string, items: seq<Item>, i: nat, pos: seq<nat>)
    requires i < |items| && i + 1 < |pos| && ValidItem(items[i]) && Reads(ct, src, items, i, pos)
    ensures pos[i] <= pos[i + 1] <= |src|
  {
  }

  // ---- a match is a walk ------------------------------------------------------------------

  lemma StepBack(ct: CharTypes, src: string, pt: Pattern, items: seq<Item>, i: nat, pos: seq<nat>, o: Outcome) returns (q: nat)
    requires ValidPattern(pt) && pt.Then? && i < |items| && items[i] == pt.item && |pos| == i + 1 && ValidItem(items[i])
    requires pos[i] <= |src| && Matches(ct, src, pt, pos[i], CapturesAt(items, i, pos), o)
    ensures q <= |src| && Reads(ct, src, items, i, pos + [q])
    ensures Matches(ct, src, pt.rest, q, CapturesAt(items, i + 1, pos + [q]), o)
  {
    hide Brackets, MatchItem, MatchBracketClass, Nesting, CaptureToClose, Innermost, CapturesOf, BackRefEnd;
    var p, bs, caps := pos[i], Brackets(items, i), CapturesAt(items, i, pos);
    match pt.item {
      case Balance(x, y) =>
        q :| BalancedTo(src, p, q, x, y) && Matches(ct, src, pt.rest, q, caps, o);
      case BackRef(digit) =>
        q := BackRefEnd(src, p, caps[CaptureIndex(caps, digit).value]).value;
      case Single(text, quant) =>
        var n: nat :| CountAllowed(quant, n) && Run(ct, src, text, p, n) && Matches(ct, src, pt.rest, p + n, caps, o);
        q := p + n;
      case _ => q := p;
    }
    var pos' := pos + [q];
    CapturesStep(items, i, pos');
    CapturesAgree(items, i, pos, pos');
    if pt.item.BackRef? {
      var l := pt.item.digit as int - '1' as int;
      assert caps[l] == Captured(bs[l], pos') by {
        assert caps == CapturesAt(items, i, pos');
      }
      RepeatIsBackRef(src, bs[l], pos', p, q);
    }
  }

  lemma {:induction false} WalkOfMatch(ct: CharTypes, src: string, pt: Pattern, items: seq<Item>, i: nat, pos: seq<nat>, o: Outcome)
    returns (whole: seq<nat>)
    requires ValidPattern(pt) && ValidItems(items) && i <= |items| && items[i..] == Items(pt) && |pos| == i + 1
    requires pos[i] <= |src| && Matches(ct, src, pt, pos[i], CapturesAt(items, i, pos), o)
    ensures |whole| == |items| + 1 && whole[..i + 1] == pos && WalksFrom(ct, src, items, Tail(pt), i, whole)
    ensures o == Outcome(whole[|items|], CapturesAt(items, |items|, whole))
    decreases pt
  {
    if pt.Then? {
      hide Reads, CapturesAt, Matches;
      assert items[i..][0] == items[i] && items[i..][1..] == items[i + 1..] && Items(pt)[1..] == Items(pt.rest);
      var q := StepBack(ct, src, pt, items, i, pos, o);
      var pos' := pos + [q];
      whole := WalkOfMatch(ct, src, pt.rest, items, i + 1, pos', o);
      assert whole[..i + 1] == whole[..i + 2][..i + 1] == pos;
      assert pos'[..i + 2] == pos';
      ReadsAgree(ct, src, items, i, whole, pos');
    } else {
      whole := pos;
    }
  }

  /** The match relation allows exactly the outcomes of walks. */
  lemma MatchesIsWalk(ct: CharTypes, src: string, pt: Pattern, s: nat, o: Outcome)
    requires s <= |src| && ValidPattern(pt)
    ensures Matches(ct, src, pt, s, [], o) <==> exists pos :: Walk(ct, src, pt, s, pos, o)
  {
    ItemsAreValid(pt);
    var items := Items(pt);
    assert items[0..] == items;
    hide Reads, Matches;
    if Matches(ct, src, pt, s, [], o) {
      assert CapturesAt(items, 0, [s]) == [];
      var pos := WalkOfMatch(ct, src, pt, items, 0, [s], o);
      assert pos[..1][0] == pos[0];
      assert Walk(ct, src, pt, s, pos, o);
    }
    if pos :| Walk(ct, src, pt, s, pos, o) {
      assert CapturesAt(items, 0, pos) == [];
      MatchOfWalk(ct, src, pt, items, 0, pos);
    }
  }

  // ---- what is reported -------------------------------------------------------------------

  /** The stretch of the subject between the positions at which a bracket was passed. */
  function Stretch(b: Bracket, pos: seq<nat>): Span
    requires b.open < |pos| && (b.Pair? ==> b.close < |pos|)
  {
    Span(pos[b.open], if b.Pair? then pos[b.close] else pos[b.open])
  }

  /** The groups of a walk: the stretches of its brackets, or the whole walk when there are none. */
  function Stretches(items: seq<Item>, pos: seq<nat>): seq<Span>
    requires |pos| == |items| + 1
  {
    var bs := Brackets(items, |items|);
    if bs == [] then [Span(pos[0], pos[|items|])]
    else seq(|bs|, k requires 0 <= k < |bs| => Stretch(bs[k], pos))
  }

  lemma {:induction false} WalkAdvances(ct: CharTypes, src: string, items: seq<Item>, tail: Pattern, pos: seq<nat>, i: nat, j: nat)
    requires ValidItems(items) && |pos| == |items| + 1 && WalksFrom(ct, src, items, tail, 0, pos) && i <= j <= |items|
    ensures pos[i] <= pos[j] <= |src|
    decreases j
  {
    if i < j {
      WalkAdvances(ct, src, items, tail, pos, i, j - 1);
      ReadsForward(ct, src, items, j - 1, pos);
    } else if j < |items| {
      ReadsForward(ct, src, items, j, pos);
    }
  }

  lemma WalkReports(ct: CharTypes, src: string, pt: Pattern, s: nat, pos: seq<nat>, o: Outcome)
    requires ValidPattern(pt) && Walk(ct, src, pt, s, pos, o)
    ensures Groups(Hit(s, o)) == Stretches(Items(pt), pos)
  {
    ItemsAreValid(pt);
    var items := Items(pt);
    var bs := Brackets(items, |items|);
    hide Reads, Brackets;
    forall k | 0 <= k < |bs|
      ensures CaptureSpan(o.caps[k]) == Stretch(bs[k], pos)
    {
      assert o.caps[k] == Captured(bs[k], pos);
      if bs[k].Pair? {
        BracketsPair(items, |items|, k);
        WalkAdvances(ct, src, items, Tail(pt), pos, bs[k].open, bs[k].close);
      }
    }
  }

  /** What a search reports for a match is where its brackets were passed on some walk. */
  lemma SearchedStretches(ct: CharTypes, src: CString, pattern: CString, init: nat) returns (pos: seq<nat>)
    requires init <= |src| && Searched(ct, src, pattern, init).Some?
    ensures
      var pt, hit := Parse(Unanchored(pattern), 0), Searched(ct, src, pattern, init).value;
      Walk(ct, src, pt, hit.start, pos, hit.outcome) && Groups(hit) == Stretches(Items(pt), pos)
  {
    var pt, hit := Parse(Unanchored(pattern), 0), Searched(ct, src, pattern, init).value;
    hide Parse, Walk, Matches, Outcomes;
    LeftmostIsLeast(ct, src, pt, init, IsAnchored(pattern));
    MatchesIsWalk(ct, src, pt, hit.start, hit.outcome);
    pos :| Walk(ct, src, pt, hit.start, pos, hit.outcome);
    WalkReports(ct, src, pt, hit.start, pos, hit.outcome);
  }

  // ---- brackets pair as brackets do ----------------------------------------------------------

  /** Opening less closing brackets among the items between `a` and `j`. */
  function NetInside(items: seq<Item>, a: nat, j: nat): int
    requires a < j <= |items|
  {
    if j == a + 1 then 0
    else NetInside(items, a, j - 1) + (if items[j - 1].Open? then 1 else if items[j - 1].Close? then -1 else 0)
  }

  function CountOpen(bs: seq<Bracket>, k: nat): nat
    requires k <= |bs|
    decreases |bs| - k
  {
    if k == |bs| then 0 else (if bs[k].Unclosed? then 1 else 0) + CountOpen(bs, k + 1)
  }

  /** Between an open bracket and item `i`, no closing bracket is without its opening one. */
  ghost predicate OpenTo(items: seq<Item>, a: nat, i: nat)
    requires i <= |items|
  {
    a < i && items[a].Open? && forall m :: a < m <= i ==> NetInside(items, a, m) >= 0
  }

  ghost predicate Properly(items: seq<Item>, b: Bracket, i: nat, inside: nat)
    requires i <= |items|
  {
    match b
    case Mark(a) => a < i && items[a].Position?
    case Unclosed(a) => OpenTo(items, a, i) && NetInside(items, a, i) == inside
    case Pair(a, c) => c < i && items[c].Close? && OpenTo(items, a, c) && NetInside(items, a, c) == 0
  }

  lemma {:induction false} CountOpenUpdate(bs: seq<Bracket>, l: nat, b: Bracket, k: nat)
    requires k <= l < |bs| && bs[l].Unclosed? && !b.Unclosed?
    ensures CountOpen(bs[l := b], k) == CountOpen(bs, k) - 1
    decreases l - k
  {
    if k < l {
      CountOpenUpdate(bs, l, b, k + 1);
    } else {
      CountOpenBeyond(bs, bs[l := b], l + 1);
    }
  }

  lemma {:induction false} CountOpenBeyond(bs: seq<Bracket>, cs: seq<Bracket>, k: nat)
    requires k <= |bs| == |cs| && forall j :: k <= j < |bs| ==> bs[j] == cs[j]
    ensures CountOpen(bs, k) == CountOpen(cs, k)
    decreases |bs| - k
  {
    if k < |bs| {
      CountOpenBeyond(bs, cs, k + 1);
    }
  }

  lemma {:induction false} CountOpenAppend(bs: seq<Bracket>, b: Bracket, k: nat)
    requires k <= |bs|
    ensures CountOpen(bs + [b], k) == CountOpen(bs, k) + if b.Unclosed? then 1 else 0
    decreases |bs| - k
  {
    if k < |bs| {
      CountOpenAppend(bs, b, k + 1);
    }
  }

  lemma {:induction false} NoneOpenBeyond(bs: seq<Bracket>, k: nat)
    requires k <= |bs| && forall j :: k <= j < |bs| ==> !bs[j].Unclosed?
    ensures CountOpen(bs, k) == 0
    decreases |bs| - k
  {
    if k < |bs| {
      NoneOpenBeyond(bs, k + 1);
    }
  }

  /**
   * Every bracket that is closed encloses a balanced stretch of the pattern, and one that is not
   * has no unmatched closing bracket behind it.
   */
  lemma {:induction false} BracketsPair(items: seq<Item>, i: nat, k: nat)
    requires i <= |items| && k < |Brackets(items, i)|
    ensures var bs := Brackets(items, i); Properly(items, bs[k], i, CountOpen(bs, k + 1))
    decreases i
  {
    var bs, next, item := Brackets(items, i - 1), Brackets(items, i), items[i - 1];
    hide Brackets, Innermost, CountOpen;
    if k == |bs| {
      NoneOpenBeyond(next, k + 1);
    } else {
      BracketsPair(items, i - 1, k);
      if item.Open? || item.Position? {
        CountOpenAppend(bs, next[|bs|], k + 1);
      } else if item.Close? {
        ClosePairs(items, i, bs, k);
      }
    }
  }

  lemma ClosePairs(items: seq<Item>, i: nat, bs: seq<Bracket>, k: nat)
    requires 0 < i <= |items| && items[i - 1].Close? && k < |bs| && Passed(bs, i - 1)
    requires Properly(items, bs[k], i - 1, CountOpen(bs, k + 1))
    ensures
      var next := if Innermost(bs) < 0 then bs else Closed(bs, i - 1);
      Properly(items, next[k], i, CountOpen(next, k + 1))
  {
    hide CountOpen;
    var l := Innermost(bs);
    if k < l {
      CountOpenUpdate(bs, l, Closed(bs, i - 1)[l], k + 1);
    } else {
      NoneOpenBeyond(bs, k + 1);
      if l >= 0 {
        CountOpenBeyond(bs, Closed(bs, i - 1), k + 1);
      }
    }
  }

  // ---- flaws ------------------------------------------------------------------------------------

  /** Item `i` finds the bracket it needs, or the room for the one it opens. */
  predicate Sound(items: seq<Item>, i: nat, most: nat)
    requires i < |items|
  {
    var bs := Brackets(items, i);
    match items[i]
    case Open => |bs| < most
    case Position => |bs| < most
    case Close => Innermost(bs) >= 0
    case BackRef(digit) => var l := digit as int - '1' as int; 0 <= l < |bs| && !bs[l].Unclosed?
    case _ => true
  }

  function Openness(bs: seq<Bracket>): seq<bool> {
    seq(|bs|, k requires 0 <= k < |bs| => bs[k].Unclosed?)
  }

  lemma OpennessAt(bs: seq<Bracket>)
    ensures |Openness(bs)| == |bs| && forall k :: 0 <= k < |bs| ==> Openness(bs)[k] == bs[k].Unclosed?
  {
  }

  lemma OpennessStep(items: seq<Item>, i: nat)
    requires i < |items|
    ensures
      var bs := Brackets(items, i);
      var shape, next := Openness(bs), Openness(Brackets(items, i + 1));
      && LastOpen(shape) == Innermost(bs)
      && (items[i].Open? ==> next == shape + [true])
      && (items[i].Position? ==> next == shape + [false])
      && (items[i].Close? && Innermost(bs) >= 0 ==> next == shape[Innermost(bs) := false])
      && (!items[i].Open? && !items[i].Position? && !items[i].Close? ==> next == shape)
  {
    var bs := Brackets(items, i);
    var l, m := Innermost(bs), LastOpen(Openness(bs));
    assert l >= 0 ==> Openness(bs)[l];
    assert m >= 0 ==> bs[m].Unclosed?;
  }

  ghost predicate SoundFrom(items: seq<Item>, tail: Pattern, i: nat, most: nat)
    requires i <= |items|
  {
    (forall j :: i <= j < |items| ==> Sound(items, j, most))
    && !tail.Malformed? && forall b <- Brackets(items, |items|) :: !b.Unclosed?
  }

  lemma FlawedStep(pt: Pattern, items: seq<Item>, i: nat, most: nat)
    requires pt.Then? && i < |items| && items[i] == pt.item
    ensures Flawed(pt, Openness(Brackets(items, i)), most) <==>
            !Sound(items, i, most) || Flawed(pt.rest, Openness(Brackets(items, i + 1)), most)
  {
    hide Brackets, Innermost, LastOpen, Openness;
    OpennessStep(items, i);
    OpennessAt(Brackets(items, i));
  }

  lemma SoundStep(items: seq<Item>, tail: Pattern, i: nat, most: nat)
    requires i < |items|
    ensures SoundFrom(items, tail, i, most) <==> Sound(items, i, most) && SoundFrom(items, tail, i + 1, most)
  {
    hide Sound, Brackets;
  }

  lemma {:induction false} FlawedFromIff(pt: Pattern, items: seq<Item>, i: nat, most: nat)
    requires i <= |items| && items[i..] == Items(pt)
    ensures Flawed(pt, Openness(Brackets(items, i)), most) <==> !SoundFrom(items, Tail(pt), i, most)
    decreases pt
  {
    hide Brackets, Openness, Sound;
    if pt.Then? {
      hide Flawed, SoundFrom;
      assert items[i..][0] == items[i] && items[i..][1..] == items[i + 1..] && Items(pt)[1..] == Items(pt.rest);
      FlawedStep(pt, items, i, most);
      SoundStep(items, Tail(pt), i, most);
      FlawedFromIff(pt.rest, items, i + 1, most);
    } else {
      assert i == |items|;
      SomeOpen(Brackets(items, i));
    }
  }

  lemma SomeOpen(bs: seq<Bracket>)
    ensures true in Openness(bs) <==> exists b <- bs :: b.Unclosed?
  {
    if true in Openness(bs) {
      var k :| 0 <= k < |bs| && Openness(bs)[k];
      assert bs[k] in bs;
    }
    if b :| b in bs && b.Unclosed? {
      var k :| 0 <= k < |bs| && bs[k] == b;
      assert Openness(bs)[k];
    }
  }

  /**
   * A pattern is flawed exactly when an item is malformed, a bracket is not closed or closes nothing,
   * there are more than `most` brackets, or a back-reference names no finished one.
   */
  lemma FlawedIff(pt: Pattern, most: nat)
    ensures Flawed(pt, [], most) <==> !SoundFrom(Items(pt), Tail(pt), 0, most)
  {
    assert Items(pt)[0..] == Items(pt) && Openness(Brackets(Items(pt), 0)) == [];
    FlawedFromIff(pt, Items(pt), 0, most);
  }
}
