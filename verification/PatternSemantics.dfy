/**
 * What a pattern means, independently of how it is searched for: the list of
 * all ways to match at a position, best first, and the unordered relation the
 * list enumerates.
 */
module PatternSemantics {
  import opened Options
  import opened PatternSyntax

  datatype Extent = Unfinished | Point | Length(n: int)

  datatype Capture = Capture(init: nat, extent: Extent)

  datatype Outcome = Outcome(end: nat, caps: seq<Capture>)

  // ---- single steps -------------------------------------------------------

  /** The most recently opened capture still unfinished, or -1. */
  function CaptureToClose(caps: seq<Capture>): (l: int)
    ensures -1 <= l < |caps|
    ensures l >= 0 ==> caps[l].extent.Unfinished?
    ensures forall k :: l < k < |caps| ==> !caps[k].extent.Unfinished?
  {
    if |caps| == 0 then -1
    else if caps[|caps| - 1].extent.Unfinished? then |caps| - 1
    else CaptureToClose(caps[..|caps| - 1])
  }

  function OpenAt(caps: seq<Capture>, s: nat, extent: Extent): seq<Capture> {
    caps + [Capture(s, extent)]
  }

  function CloseAt(caps: seq<Capture>, l: nat, s: nat): seq<Capture>
    requires l < |caps|
  {
    caps[l := Capture(caps[l].init, Length(s - caps[l].init))]
  }

  /** The capture number a back-reference digit names, if it names a finished one. */
  function CaptureIndex(caps: seq<Capture>, digit: char): (r: Option<nat>)
    ensures r.Some? ==> r.value < |caps|
  {
    var l := digit as int - '1' as int;
    if l < 0 || l >= |caps| || caps[l].extent.Unfinished? then None else Some(l)
  }

  /** The offset after a repetition of the captured text at `s`. */
  function BackRefEnd(src: string, s: nat, cap: Capture): (r: Option<nat>)
    ensures r.Some? ==> s <= r.value <= |src|
  {
    if cap.extent.Length? && 0 <= cap.extent.n && s + cap.extent.n <= |src|
       && cap.init + cap.extent.n <= |src|
       && src[cap.init..cap.init + cap.extent.n] == src[s..s + cap.extent.n]
    then Some(s + cap.extent.n)
    else None
  }

  /** Nesting depth of `open`/`close` after reading `src[s+1..j]`, started at one. */
  function Nesting(src: string, s: nat, j: nat, open: char, close: char): int
    requires s < j <= |src|
  {
    if j == s + 1 then 1
    else
      Nesting(src, s, j - 1, open, close)
      + (if src[j - 1] == close then -1 else if src[j - 1] == open then 1 else 0)
  }

  /** `src[s..j]` is a balanced stretch: it starts with `open` and nesting first returns to zero at `j`. */
  ghost predicate BalancedTo(src: string, s: nat, j: nat, open: char, close: char) {
    s < j <= |src| && src[s] == open && Nesting(src, s, j, open, close) == 0
    && forall k :: s < k < j ==> Nesting(src, s, k, open, close) != 0
  }

  /** The balanced stretch read left to right from `i` with `depth` already open. */
  function BalanceScan(src: string, i: nat, depth: nat, open: char, close: char): (r: Option<nat>)
    requires i <= |src| && depth > 0
    ensures r.Some? ==> i < r.value <= |src|
    decreases |src| - i
  {
    if i == |src| then None
    else if src[i] == close then
      if depth == 1 then Some(i + 1) else BalanceScan(src, i + 1, depth - 1, open, close)
    else BalanceScan(src, i + 1, if src[i] == open then depth + 1 else depth, open, close)
  }

  function BalanceEnd(src: string, s: nat, open: char, close: char): (r: Option<nat>)
    requires s <= |src|
    ensures r.Some? ==> s < r.value <= |src|
  {
    if s == |src| || src[s] != open then None else BalanceScan(src, s + 1, 1, open, close)
  }

  predicate FrontierAt(ct: CharTypes, src: string, s: nat, set_: string)
    requires s <= |src| && |set_| >= 2
  {
    !MatchBracketClass(ct, if s == 0 then '\0' else src[s - 1], set_)
    && MatchBracketClass(ct, At(src, s), set_)
  }

  // ---- ordered outcomes -----------------------------------------------------

  /** Every way `pt` matches from `s` with captures `caps` already taken, best first. */
  function Outcomes(ct: CharTypes, src: string, pt: Pattern, s: nat, caps: seq<Capture>): seq<Outcome>
    requires s <= |src| && ValidPattern(pt)
    decreases pt, 1, 0
  {
    match pt
    case Done => [Outcome(s, caps)]
    case EndAnchor => if s == |src| then [Outcome(s, caps)] else []
    case Malformed => []
    case Then(item, rest) =>
      match item
      case Open => Outcomes(ct, src, rest, s, OpenAt(caps, s, Unfinished))
      case Position => Outcomes(ct, src, rest, s, OpenAt(caps, s, Point))
      case Close =>
        var l := CaptureToClose(caps);
        if l < 0 then [] else Outcomes(ct, src, rest, s, CloseAt(caps, l, s))
      case Balance(open, close) =>
        (match BalanceEnd(src, s, open, close)
         case None => []
         case Some(e) => Outcomes(ct, src, rest, e, caps))
      case Frontier(set_) =>
        if FrontierAt(ct, src, s, set_) then Outcomes(ct, src, rest, s, caps) else []
      case BackRef(digit) =>
        (match CaptureIndex(caps, digit)
         case None => []
         case Some(l) =>
           match BackRefEnd(src, s, caps[l])
           case None => []
           case Some(e) => Outcomes(ct, src, rest, e, caps))
      case Single(text, quant) =>
        var fits := SingleMatch(ct, src, s, text);
        match quant
        case Once => if fits then Outcomes(ct, src, rest, s + 1, caps) else []
        case Optional =>
          (if fits then Outcomes(ct, src, rest, s + 1, caps) else []) + Outcomes(ct, src, rest, s, caps)
        case Greedy => LongestFirst(ct, src, text, rest, s, caps)
        case GreedyPlus => if fits then LongestFirst(ct, src, text, rest, s + 1, caps) else []
        case Lazy => ShortestFirst(ct, src, text, rest, s, caps)
  }

  function LongestFirst(ct: CharTypes, src: string, text: string, rest: Pattern, s: nat, caps: seq<Capture>): seq<Outcome>
    requires s <= |src| && ValidPattern(rest) && ItemText(text)
    decreases rest, 2, |src| - s
  {
    (if SingleMatch(ct, src, s, text) then LongestFirst(ct, src, text, rest, s + 1, caps) else [])
    + Outcomes(ct, src, rest, s, caps)
  }

  function ShortestFirst(ct: CharTypes, src: string, text: string, rest: Pattern, s: nat, caps: seq<Capture>): seq<Outcome>
    requires s <= |src| && ValidPattern(rest) && ItemText(text)
    decreases rest, 2, |src| - s
  {
    Outcomes(ct, src, rest, s, caps)
    + (if SingleMatch(ct, src, s, text) then ShortestFirst(ct, src, text, rest, s + 1, caps) else [])
  }

  function First(os: seq<Outcome>): Option<Outcome> {
    if |os| == 0 then None else Some(os[0])
  }

  // ---- the price of the first outcome -------------------------------------------

  /**
   * What a search uses up: items refused, calls of `match` active at once below this one, and
   * whether it runs into a flaw of the pattern.
   */
  datatype Price = Price(misses: nat, calls: nat, flaw: bool)

  const FREE: Price := Price(0, 0, false)
  const FLAW: Price := Price(0, 0, true)

  /** One search after the other. */
  function Both(a: Price, b: Price): Price {
    Price(a.misses + b.misses, if a.calls < b.calls then b.calls else a.calls, a.flaw || b.flaw)
  }

  function Called(a: Price): Price {
    a.(calls := a.calls + 1)
  }

  function Missed(a: Price): Price {
    a.(misses := a.misses + 1)
  }

  /**
   * The price of finding the first outcome, or of finding out that there is none, with room
   * for `most` captures.
   */
  function PriceOf(ct: CharTypes, src: string, pt: Pattern, s: nat, caps: seq<Capture>, most: nat): Price
    requires s <= |src| && ValidPattern(pt)
    decreases pt, 1, 0
  {
    if pt.Malformed? then FLAW
    else if !pt.Then? then FREE
    else
      var rest := pt.rest;
      match pt.item
      case Open => if |caps| >= most then FLAW else Called(PriceOf(ct, src, rest, s, OpenAt(caps, s, Unfinished), most))
      case Position => if |caps| >= most then FLAW else Called(PriceOf(ct, src, rest, s, OpenAt(caps, s, Point), most))
      case Close =>
        var l := CaptureToClose(caps);
        if l < 0 then FLAW else Called(PriceOf(ct, src, rest, s, CloseAt(caps, l, s), most))
      case Balance(open, close) =>
        (match BalanceEnd(src, s, open, close)
         case None => FREE
         case Some(e) => PriceOf(ct, src, rest, e, caps, most))
      case Frontier(set_) => if FrontierAt(ct, src, s, set_) then PriceOf(ct, src, rest, s, caps, most) else FREE
      case BackRef(digit) =>
        (match CaptureIndex(caps, digit)
         case None => FLAW
         case Some(l) =>
           match BackRefEnd(src, s, caps[l])
           case None => FREE
           case Some(e) => PriceOf(ct, src, rest, e, caps, most))
      case Single(text, quant) =>
        if !SingleMatch(ct, src, s, text) then
          Missed(if quant.Once? || quant.GreedyPlus? then FREE else PriceOf(ct, src, rest, s, caps, most))
        else
          match quant
          case Once => PriceOf(ct, src, rest, s + 1, caps, most)
          case Optional =>
            Both(Called(PriceOf(ct, src, rest, s + 1, caps, most)),
                 if Outcomes(ct, src, rest, s + 1, caps) == [] then PriceOf(ct, src, rest, s, caps, most) else FREE)
          case Greedy => LongestPrice(ct, src, text, rest, s, caps, most)
          case GreedyPlus => LongestPrice(ct, src, text, rest, s + 1, caps, most)
          case Lazy => ShortestPrice(ct, src, text, rest, s, caps, most)
  }

  /** Longer runs are paid for first; this one is tried only when they all fail. */
  function LongestPrice(ct: CharTypes, src: string, text: string, rest: Pattern, s: nat, caps: seq<Capture>, most: nat): Price
    requires s <= |src| && ValidPattern(rest) && ItemText(text)
    decreases rest, 2, |src| - s
  {
    if !SingleMatch(ct, src, s, text) then Called(PriceOf(ct, src, rest, s, caps, most))
    else
      Both(LongestPrice(ct, src, text, rest, s + 1, caps, most),
           if LongestFirst(ct, src, text, rest, s + 1, caps) == [] then Called(PriceOf(ct, src, rest, s, caps, most)) else FREE)
  }

  function ShortestPrice(ct: CharTypes, src: string, text: string, rest: Pattern, s: nat, caps: seq<Capture>, most: nat): Price
    requires s <= |src| && ValidPattern(rest) && ItemText(text)
    decreases rest, 2, |src| - s
  {
    Both(Called(PriceOf(ct, src, rest, s, caps, most)),
         if Outcomes(ct, src, rest, s, caps) == [] && SingleMatch(ct, src, s, text)
         then ShortestPrice(ct, src, text, rest, s + 1, caps, most) else FREE)
  }

  // ---- the relation the list enumerates ---------------------------------------

  predicate CountAllowed(quant: Quantifier, n: nat) {
    match quant
    case Once => n == 1
    case Optional => n <= 1
    case Greedy => true
    case GreedyPlus => n >= 1
    case Lazy => true
  }

  /** `n` consecutive subject characters from `s` are all accepted by the item. */
  ghost predicate Run(ct: CharTypes, src: string, text: string, s: nat, n: nat)
    requires ItemText(text)
  {
    s + n <= |src| && forall k :: s <= k < s + n ==> MatchItem(ct, src[k], text)
  }

  /** `pt` can match `src` from `s` with captures `caps`, ending as `o` says; no order, no search. */
  ghost predicate Matches(ct: CharTypes, src: string, pt: Pattern, s: nat, caps: seq<Capture>, o: Outcome)
    requires s <= |src| && ValidPattern(pt)
    decreases pt
  {
    match pt
    case Done => o == Outcome(s, caps)
    case EndAnchor => s == |src| && o == Outcome(s, caps)
    case Malformed => false
    case Then(item, rest) =>
      match item
      case Open => Matches(ct, src, rest, s, OpenAt(caps, s, Unfinished), o)
      case Position => Matches(ct, src, rest, s, OpenAt(caps, s, Point), o)
      case Close =>
        var l := CaptureToClose(caps);
        l >= 0 && Matches(ct, src, rest, s, CloseAt(caps, l, s), o)
      case Balance(open, close) =>
        exists e :: BalancedTo(src, s, e, open, close) && Matches(ct, src, rest, e, caps, o)
      case Frontier(set_) => FrontierAt(ct, src, s, set_) && Matches(ct, src, rest, s, caps, o)
      case BackRef(digit) =>
        CaptureIndex(caps, digit).Some?
        && var e := BackRefEnd(src, s, caps[CaptureIndex(caps, digit).value]);
           e.Some? && Matches(ct, src, rest, e.value, caps, o)
      case Single(text, quant) =>
        exists n: nat :: CountAllowed(quant, n) && Run(ct, src, text, s, n) && Matches(ct, src, rest, s + n, caps, o)
  }
}
