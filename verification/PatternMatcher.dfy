/**
 * The backtracking matcher of `patterns.c` over its mutable `match_state`,
 * proved to return the first of the ordered outcomes.
 */
module PatternMatcher {
  import opened Options
  import opened PatternSyntax
  import opened PatternSemantics
  import opened PatternFacts

  const MAXCAPTURES: nat := 32
  const MAXCCALLS: nat := 200
  const MAXREPETITION: nat := 0xfffff

  datatype MatchError =
    | InvalidCaptureIndex | InvalidPatternCapture | EndsWithEscape | MissingBracket
    | MissingBalanceArguments | TooManyCaptures | TooComplex | MissingFrontierSet
    | MaxRepetition | StartAfterEnd | UnfinishedCapture

  /** What one turn of the `init:` loop of `match` decides. */
  datatype Turn = Return(res: Option<nat>) | Again(s: nat, p: nat)

  /** Captures taken while reading `src[..s]`: inside it, and not of negative length. */
  ghost predicate CapsWithin(caps: seq<Capture>, s: nat) {
    forall c <- caps :: c.init <= s && (c.extent.Length? ==> 0 <= c.extent.n && c.init + c.extent.n <= s)
  }

  function CountUnfinished(caps: seq<Capture>): (n: nat)
    ensures n <= |caps|
  {
    if |caps| == 0 then 0
    else CountUnfinished(caps[..|caps| - 1]) + (if caps[|caps| - 1].extent.Unfinished? then 1 else 0)
  }

  /** How many more captures can still be opened or closed: bounds the recursion once an error is set. */
  function CaptureSlack(caps: seq<Capture>, maxcaptures: nat): int {
    2 * (maxcaptures - |caps|) + CountUnfinished(caps)
  }

  lemma OpenUsesSlack(caps: seq<Capture>, s: nat, extent: Extent, maxcaptures: nat)
    ensures CaptureSlack(OpenAt(caps, s, extent), maxcaptures) < CaptureSlack(caps, maxcaptures)
  {
    assert OpenAt(caps, s, extent)[..|caps|] == caps;
  }

  lemma CloseKeepsWithin(caps: seq<Capture>, l: nat, s: nat)
    requires l < |caps| && CapsWithin(caps, s)
    ensures CapsWithin(CloseAt(caps, l, s), s)
    ensures CloseAt(caps, l, s)[l := caps[l]] == caps
  {
    assert caps[l] in caps;
  }

  lemma {:induction false} CloseUsesSlack(caps: seq<Capture>, l: nat, s: nat)
    requires l < |caps| && caps[l].extent.Unfinished?
    ensures CountUnfinished(CloseAt(caps, l, s)) == CountUnfinished(caps) - 1
    decreases |caps|
  {
    var closed := CloseAt(caps, l, s);
    var k := |caps| - 1;
    if l == k {
      assert closed[..k] == caps[..k];
    } else {
      CloseUsesSlack(caps[..k], l, s);
      assert closed[..k] == CloseAt(caps[..k], l, s);
    }
  }

  /** The outcomes of a pattern that starts with a single-character item, by its suffix. */
  lemma SingleOutcomes(ct: CharTypes, src: string, pat: CString, s: nat, p: nat, ep: nat, caps: seq<Capture>)
    requires s <= |src| && p < |pat| && Parse(pat, p) == ParseSingle(pat, p) && ClassEnd(pat, p) == Some(ep)
    ensures
      var here := First(Outcomes(ct, src, Parse(pat, p), s, caps));
      var text, suffix := pat[p..ep], At(pat, ep);
      if !SingleMatch(ct, src, s, text) then
        here == if suffix == '?' || suffix == '*' || suffix == '-' then First(Outcomes(ct, src, Parse(pat, ep + 1), s, caps)) else None
      else if suffix == '?' then
        here == First(Outcomes(ct, src, Parse(pat, ep + 1), s + 1, caps) + Outcomes(ct, src, Parse(pat, ep + 1), s, caps))
      else if suffix == '*' then here == First(LongestFirst(ct, src, text, Parse(pat, ep + 1), s, caps))
      else if suffix == '+' then here == First(LongestFirst(ct, src, text, Parse(pat, ep + 1), s + 1, caps))
      else if suffix == '-' then here == First(ShortestFirst(ct, src, text, Parse(pat, ep + 1), s, caps))
      else here == First(Outcomes(ct, src, Parse(pat, ep), s + 1, caps))
  {
    var quant := QuantifierAt(At(pat, ep));
    var pt := Parse(pat, p);
    assert pt == Then(Single(pat[p..ep], quant), Parse(pat, if quant.Once? then ep else ep + 1));
    var after := Outcomes(ct, src, pt.rest, s, caps);
    assert [] + after == after && after + [] == after;
  }

  /** The price of a pattern that starts with a single-character item, by its suffix. */
  lemma SinglePrice(ct: CharTypes, src: string, pat: CString, s: nat, p: nat, ep: nat, caps: seq<Capture>, most: nat)
    requires s <= |src| && p < |pat| && Parse(pat, p) == ParseSingle(pat, p) && ClassEnd(pat, p) == Some(ep)
    ensures
      var here := PriceOf(ct, src, Parse(pat, p), s, caps, most);
      var text, suffix := pat[p..ep], At(pat, ep);
      if !SingleMatch(ct, src, s, text) then
        here == Missed(if suffix == '?' || suffix == '*' || suffix == '-' then PriceOf(ct, src, Parse(pat, ep + 1), s, caps, most) else FREE)
      else if suffix == '?' then
        here == Both(Called(PriceOf(ct, src, Parse(pat, ep + 1), s + 1, caps, most)),
                     if Outcomes(ct, src, Parse(pat, ep + 1), s + 1, caps) == [] then PriceOf(ct, src, Parse(pat, ep + 1), s, caps, most) else FREE)
      else if suffix == '*' then here == LongestPrice(ct, src, text, Parse(pat, ep + 1), s, caps, most)
      else if suffix == '+' then here == LongestPrice(ct, src, text, Parse(pat, ep + 1), s + 1, caps, most)
      else if suffix == '-' then here == ShortestPrice(ct, src, text, Parse(pat, ep + 1), s, caps, most)
      else here == PriceOf(ct, src, Parse(pat, ep), s + 1, caps, most)
  {
    var quant := QuantifierAt(At(pat, ep));
    assert Parse(pat, p) == Then(Single(pat[p..ep], quant), Parse(pat, if quant.Once? then ep else ep + 1));
  }

  /** The answer of a call as an outcome: where it ended and which captures it left. */
  function Answer(r: Option<nat>, caps: seq<Capture>): Option<Outcome> {
    match r
    case None => None
    case Some(e) => Some(Outcome(e, caps))
  }

  /** A budget error is there because the price is above that budget, any other because of a flaw run into. */
  predicate Justified(error: MatchError, price: Price, repetitions: int, depth: int) {
    if error.MaxRepetition? then repetitions < price.misses
    else if error.TooComplex? then depth < price.calls
    else price.flaw && !error.UnfinishedCapture? && !error.StartAfterEnd?
  }

  class MatchState {
    const ct: CharTypes
    const src: CString
    const pat: CString
    const maxcaptures: nat
    const capture: array<Capture>
    var matchdepth: int
    var repetitioncounter: int
    var level: nat
    var error: Option<MatchError>
    ghost var deepest: nat  // the most calls of `match` that were ever active at once

    constructor (ct: CharTypes, src: CString, pat: CString, nsm: nat)
      requires nsm >= 1
      ensures this.ct == ct && this.src == src && this.pat == pat
      ensures maxcaptures == (if nsm > MAXCAPTURES then MAXCAPTURES else nsm) - 1
      ensures fresh(capture) && Valid() && error == None && level == 0 && matchdepth == MAXCCALLS
      ensures repetitioncounter == MAXREPETITION
    {
      this.ct, this.src, this.pat := ct, src, pat;
      maxcaptures := (if nsm > MAXCAPTURES then MAXCAPTURES else nsm) - 1;
      capture := new Capture[MAXCAPTURES](_ => Capture(0, Length(0)));
      matchdepth, repetitioncounter := MAXCCALLS, MAXREPETITION;
      level, error := 0, None;
      deepest := 0;
    }

    ghost predicate Valid()
      reads this, capture
    {
      capture.Length == MAXCAPTURES && level <= maxcaptures < MAXCAPTURES
      && deepest <= MAXCCALLS + 1 + 2 * maxcaptures && (error.None? ==> repetitioncounter >= 0)
    }

    function Caps(): seq<Capture>
      reads this, capture
      requires level <= capture.Length
    {
      capture[..level]
    }

    /** The outcomes the pattern text at `p` has from `s`, with the captures taken so far. */
    ghost function Expected(s: nat, p: nat, caps: seq<Capture>): Option<Outcome>
      requires s <= |src| && p <= |pat|
    {
      First(Outcomes(ct, src, Parse(pat, p), s, caps))
    }

    /** The price of that answer. */
    ghost function Cost(s: nat, p: nat, caps: seq<Capture>): Price
      requires s <= |src| && p <= |pat|
    {
      PriceOf(ct, src, Parse(pat, p), s, caps, maxcaptures)
    }

    /** `price` was paid: without error, exactly; otherwise what the error complains of is part of it. */
    twostate predicate Paid(new price: Price)
      reads this
    {
      (error.None? ==> repetitioncounter == old(repetitioncounter) - price.misses && price.calls <= old(matchdepth) && !price.flaw)
      && (old(error).None? && error.Some? ==> Justified(error.value, price, old(repetitioncounter), old(matchdepth)))
    }

    /** The call ended with answer `r`: what every path of `match` and its helpers keeps. */
    twostate predicate Answered(new r: Option<nat>)
      reads this, capture
      requires old(level) <= capture.Length
    {
      Valid()
      && (r.None? ==> Caps() == old(Caps()))
      && (r.Some? ==> r.value <= |src|)
      && (old(error).Some? ==> error == old(error))
      && (error.None? ==> matchdepth == old(matchdepth))
    }

    /** `depth` calls of `match` are active: the counter agrees, and the stack is within bounds. */
    ghost predicate DepthOk(depth: nat, p: nat)
      reads this, capture
      requires Valid()
    {
      (error.None? ==> depth <= MAXCCALLS && matchdepth == MAXCCALLS - depth)
      && depth + CaptureSlack(Caps(), maxcaptures) <= MAXCCALLS + 2 * maxcaptures
    }

    method MatchFailure(e: MatchError)
      modifies this`error
      ensures error == if old(error).None? then Some(e) else old(error)
    {
      error := if error.None? then Some(e) else error;
    }

    /** `match`: the `init:` loop. */
    method Match(s0: nat, p0: nat, ghost depth: nat) returns (r: Option<nat>)
      requires Valid() && s0 <= |src| && p0 <= |pat| && CapsWithin(Caps(), s0) && DepthOk(depth, p0)
      modifies this, capture
      ensures Answered(r)
      ensures error.None? ==> Answer(r, Caps()) == Expected(s0, p0, old(Caps()))
      ensures Paid(Called(Cost(s0, p0, old(Caps()))))
      decreases |pat| - p0, 4
    {
      deepest := if depth + 1 > deepest then depth + 1 else deepest;
      matchdepth := matchdepth - 1;
      if matchdepth + 1 == 0 {
        MatchFailure(TooComplex);
        return None;
      }
      var s, p := s0, p0;
      while p != |pat|
        invariant p0 <= p <= |pat| && s0 <= s <= |src| && Valid()
        invariant Caps() == old(Caps())
        invariant old(error).Some? ==> error == old(error)
        invariant error.None? ==> matchdepth == old(matchdepth) - 1
        invariant error.None? ==> StillToPay(Cost(s, p, Caps()), Cost(s0, p0, old(Caps())), old(repetitioncounter), matchdepth)
        invariant old(error).None? && error.Some? ==>
            Justified(error.value, Cost(s0, p0, old(Caps())), old(repetitioncounter), old(matchdepth) - 1)
        invariant error.None? ==> Expected(s, p, Caps()) == Expected(s0, p0, old(Caps()))
        decreases |pat| - p
      {
        var turn := Step(s, p, depth + 1);
        match turn
        case Return(res) =>
          matchdepth := matchdepth + 1;
          return res;
        case Again(s', p') =>
          s, p := s', p';
      }
      matchdepth := matchdepth + 1;
      return Some(s);
    }

    /** Of a `whole` price, `rest` is left to pay; the calls made so far fitted into `depth`. */
    ghost predicate StillToPay(rest: Price, whole: Price, repetitions: int, depth: int)
      reads this
    {
      repetitioncounter - rest.misses == repetitions - whole.misses
      && (rest.calls <= depth <==> whole.calls <= depth) && (rest.flaw <==> whole.flaw)
    }

    ghost predicate StepPre(s: nat, p: nat, depth: nat)
      reads this, capture
    {
      Valid() && s <= |src| && p < |pat| && CapsWithin(Caps(), s)
      && depth >= 1
      && (error.None? ==> depth <= MAXCCALLS && matchdepth == MAXCCALLS - depth)
      && depth - 1 + CaptureSlack(Caps(), maxcaptures) <= MAXCCALLS + 2 * maxcaptures
    }

    twostate predicate StepPost(s: nat, p: nat, new turn: Turn)
      reads this, capture
      requires s <= |src| && p < |pat| && old(level) <= capture.Length
    {
      Valid()
      && (turn.Again? || turn.res.None? ==> Caps() == old(Caps()))
      && (turn.Return? && turn.res.Some? ==> turn.res.value <= |src|)
      && (turn.Again? ==> s <= turn.s <= |src| && p < turn.p <= |pat|)
      && (old(error).Some? ==> error == old(error))
      && (error.None? ==> matchdepth == old(matchdepth))
      && (error.None? ==>
            StillToPay(if turn.Again? then Cost(turn.s, turn.p, Caps()) else FREE, Cost(s, p, old(Caps())),
                       old(repetitioncounter), old(matchdepth)))
      && (old(error).None? && error.Some? ==>
            Justified(error.value, Cost(s, p, old(Caps())), old(repetitioncounter), old(matchdepth)))
      && (error.None? ==>
            Expected(s, p, old(Caps())) ==
            if turn.Return? then Answer(turn.res, Caps()) else Expected(turn.s, turn.p, Caps()))
    }

    /** One pass through the switch of `match`. */
    method Step(s: nat, p: nat, ghost depth: nat) returns (turn: Turn)
      requires StepPre(s, p, depth)
      modifies this, capture
      ensures StepPost(s, p, turn)
      decreases |pat| - p, 3
    {
      if pat[p] == '(' {
        turn := StepOpen(s, p, depth);
      } else if pat[p] == ')' {
        turn := StepClose(s, p, depth);
      } else if pat[p] == '$' && p + 1 == |pat| {
        turn := StepEnd(s, p);
      } else if pat[p] == '%' && At(pat, p + 1) == 'b' {
        turn := StepBalance(s, p);
      } else if pat[p] == '%' && At(pat, p + 1) == 'f' {
        turn := StepFrontier(s, p);
      } else if pat[p] == '%' && '0' <= At(pat, p + 1) <= '9' {
        turn := StepBackRef(s, p);
      } else {
        assert Parse(pat, p) == ParseSingle(pat, p);
        hide StepPost;
        turn := StepSingle(s, p, depth);
      }
    }

    /** The final '$'. */
    method StepEnd(s: nat, p: nat) returns (turn: Turn)
      requires Valid() && s <= |src| && p + 1 == |pat| && pat[p] == '$'
      ensures StepPost(s, p, turn)
    {
      turn := Return(if s == |src| then Some(s) else None);
    }

    method StepOpen(s: nat, p: nat, ghost depth: nat) returns (turn: Turn)
      requires StepPre(s, p, depth) && pat[p] == '('
      modifies this, capture
      ensures StepPost(s, p, turn)
      decreases |pat| - p, 2
    {
      assert Parse(pat, p) ==
             if At(pat, p + 1) == ')' then Then(Position, Parse(pat, p + 2)) else Then(Open, Parse(pat, p + 1));
      hide Parse;
      var r;
      if At(pat, p + 1) == ')' {
        r := StartCapture(s, p + 2, Point, depth);
      } else {
        r := StartCapture(s, p + 1, Unfinished, depth);
      }
      turn := Return(r);
    }

    method StepClose(s: nat, p: nat, ghost depth: nat) returns (turn: Turn)
      requires StepPre(s, p, depth) && pat[p] == ')'
      modifies this, capture
      ensures StepPost(s, p, turn)
      decreases |pat| - p, 2
    {
      var r := EndCapture(s, p + 1, depth);
      turn := Return(r);
    }

    method StartCapture(s: nat, p: nat, what: Extent, ghost depth: nat) returns (r: Option<nat>)
      requires 1 <= p <= |pat| && StepPre(s, p - 1, depth) && !what.Length?
      modifies this, capture
      ensures Answered(r)
      ensures error.None? ==> Answer(r, Caps()) == Expected(s, p, OpenAt(old(Caps()), s, what))
      ensures Paid(if old(level) >= maxcaptures then FLAW else Called(Cost(s, p, OpenAt(old(Caps()), s, what))))
      decreases |pat| - p, 5
    {
      if level >= maxcaptures {
        MatchFailure(TooManyCaptures);
        return None;
      }
      OpenUsesSlack(Caps(), s, what, maxcaptures);
      capture[level] := Capture(s, what);
      level := level + 1;
      assert Caps() == OpenAt(old(Caps()), s, what);
      r := Match(s, p, depth);
      if r.None? {
        assert Caps()[..level - 1] == old(Caps());
        level := level - 1;
      }
    }

    /** The search loop of `capture_to_close`. */
    method FindCaptureToClose() returns (l: int)
      requires Valid()
      modifies this`error
      ensures l == CaptureToClose(Caps())
      ensures error == if l < 0 && old(error).None? then Some(InvalidPatternCapture) else old(error)
    {
      l := level - 1;
      while l >= 0
        invariant -1 <= l < level
        invariant CaptureToClose(Caps()[..l + 1]) == CaptureToClose(Caps())
      {
        assert Caps()[..l + 1][..l] == Caps()[..l];
        if capture[l].extent.Unfinished? {
          return;
        }
        l := l - 1;
      }
      MatchFailure(InvalidPatternCapture);
    }

    method EndCapture(s: nat, p: nat, ghost depth: nat) returns (r: Option<nat>)
      requires 1 <= p <= |pat| && StepPre(s, p - 1, depth)
      modifies this, capture
      ensures Answered(r)
      ensures error.None? ==>
                var l := CaptureToClose(old(Caps()));
                l >= 0 && Answer(r, Caps()) == Expected(s, p, CloseAt(old(Caps()), l, s))
      ensures var l := CaptureToClose(old(Caps())); Paid(if l < 0 then FLAW else Called(Cost(s, p, CloseAt(old(Caps()), l, s))))
      decreases |pat| - p, 6
    {
      var l := FindCaptureToClose();
      if l == -1 {
        return None;
      }
      r := CloseAndMatch(l, s, p, depth);
    }

    /** Close capture `l` at `s`, match the rest, and reopen it if that fails. */
    method CloseAndMatch(l: nat, s: nat, p: nat, ghost depth: nat) returns (r: Option<nat>)
      requires 1 <= p <= |pat| && StepPre(s, p - 1, depth)
      requires l < level && capture[l].extent.Unfinished?
      modifies this, capture
      ensures Answered(r)
      ensures error.None? ==> Answer(r, Caps()) == Expected(s, p, CloseAt(old(Caps()), l, s))
      ensures Paid(Called(Cost(s, p, CloseAt(old(Caps()), l, s))))
      decreases |pat| - p, 5
    {
      ghost var open := Caps();
      ghost var closed := CloseAt(open, l, s);
      CloseUsesSlack(open, l, s);
      CloseKeepsWithin(open, l, s);
      capture[l] := Capture(capture[l].init, Length(s - capture[l].init));
      assert Caps() == closed;
      r := Match(s, p, depth);
      if r.None? {
        assert capture[l] == closed[l];
        capture[l] := Capture(capture[l].init, Unfinished);
        assert Caps() == closed[l := open[l]];
      }
    }

    /** `matchbalance` and the jump after it. */
    method StepBalance(s: nat, p: nat) returns (turn: Turn)
      requires Valid() && s <= |src| && p < |pat| && pat[p] == '%' && At(pat, p + 1) == 'b'
      modifies this`error
      ensures StepPost(s, p, turn)
    {
      if p + 2 >= |pat| - 1 {
        MatchFailure(MissingBalanceArguments);
        return Return(None);
      }
      if At(src, s) != pat[p + 2] {
        return Return(None);
      }
      var b, e, cont, i := pat[p + 2], pat[p + 3], 1, s + 1;
      while i < |src|
        invariant s < i <= |src| && cont >= 1
        invariant BalanceScan(src, i, cont, b, e) == BalanceEnd(src, s, b, e)
      {
        if src[i] == e {
          cont := cont - 1;
          if cont == 0 {
            return Again(i + 1, p + 4);
          }
        } else if src[i] == b {
          cont := cont + 1;
        }
        i := i + 1;
      }
      return Return(None);
    }

    method StepFrontier(s: nat, p: nat) returns (turn: Turn)
      requires Valid() && s <= |src| && p < |pat| && pat[p] == '%' && At(pat, p + 1) == 'f'
      modifies this`error
      ensures StepPost(s, p, turn)
    {
      if At(pat, p + 2) != '[' {
        MatchFailure(MissingFrontierSet);
        return Return(Some(s));
      }
      var end := ClassEnd(pat, p + 2);
      if end.None? {
        MatchFailure(MissingBracket);
      }
      if error.Some? {
        return Return(Some(s));
      }
      var set_ := pat[p + 2..end.value];
      var previous := if s == 0 then '\0' else src[s - 1];
      if !MatchBracketClass(ct, previous, set_) && MatchBracketClass(ct, At(src, s), set_) {
        return Again(s, end.value);
      }
      return Return(None);
    }

    /** `match_capture` and the jump after it. */
    method StepBackRef(s: nat, p: nat) returns (turn: Turn)
      requires Valid() && s <= |src| && p < |pat| && pat[p] == '%' && '0' <= At(pat, p + 1) <= '9'
      requires CapsWithin(Caps(), s)
      modifies this`error
      ensures StepPost(s, p, turn)
    {
      assert Parse(pat, p) == Then(BackRef(pat[p + 1]), Parse(pat, p + 2));
      hide Parse;
      var l := pat[p + 1] as int - '1' as int;
      if l < 0 || l >= level || capture[l].extent.Unfinished? {
        MatchFailure(InvalidCaptureIndex);
        return Return(None);
      }
      assert Caps()[l] in Caps();
      // A position capture has length (size_t)-2, which no remaining text reaches.
      if capture[l].extent.Length? && |src| - s >= capture[l].extent.n
         && src[capture[l].init..capture[l].init + capture[l].extent.n] == src[s..s + capture[l].extent.n] {
        return Again(s + capture[l].extent.n, p + 2);
      }
      return Return(None);
    }

    /** The `dflt:` branch: a single-character item and its suffix. */
    method StepSingle(s: nat, p: nat, ghost depth: nat) returns (turn: Turn)
      requires StepPre(s, p, depth) && Parse(pat, p) == ParseSingle(pat, p)
      modifies this, capture
      ensures StepPost(s, p, turn)
      decreases |pat| - p, 2
    {
      var end := ClassEnd(pat, p);
      if end.None? {
        MatchFailure(if pat[p] == '%' then EndsWithEscape else MissingBracket);
      }
      if error.Some? {
        return Return(Some(s));
      }
      var ep := end.value;
      SingleOutcomes(ct, src, pat, s, p, ep, Caps());
      SinglePrice(ct, src, pat, s, p, ep, Caps(), maxcaptures);
      if SingleMatch(ct, src, s, pat[p..ep]) {
        turn := StepMatchedOnce(s, p, ep, depth);
        return;
      }
      repetitioncounter := repetitioncounter - 1;
      if repetitioncounter + 1 == 0 {
        MatchFailure(MaxRepetition);
        return Return(None);
      }
      var suffix := At(pat, ep);
      if suffix == '*' || suffix == '?' || suffix == '-' {
        return Again(s, ep + 1);
      }
      return Return(None);
    }

    /** The suffix switch, after the item accepted the character at `s`. */
    method StepMatchedOnce(s: nat, p: nat, ep: nat, ghost depth: nat) returns (turn: Turn)
      requires StepPre(s, p, depth) && Parse(pat, p) == ParseSingle(pat, p) && error.None?
      requires ClassEnd(pat, p) == Some(ep) && SingleMatch(ct, src, s, pat[p..ep])
      modifies this, capture
      ensures StepPost(s, p, turn)
      decreases |pat| - p, 1
    {
      hide Outcomes, PriceOf, LongestFirst, LongestPrice, ShortestFirst, ShortestPrice, Parse, ParseSingle;
      var suffix := At(pat, ep);
      if suffix == '?' {
        turn := StepOptional(s, p, ep, depth);
        return;
      }
      SingleOutcomes(ct, src, pat, s, p, ep, Caps());
      SinglePrice(ct, src, pat, s, p, ep, Caps(), maxcaptures);
      if suffix == '+' || suffix == '*' || suffix == '-' {
        var r := Repeat(s, p, ep, depth);
        turn := Return(r);
      } else {
        turn := Again(s + 1, ep);
      }
    }

    /** The suffixes '+', '*' and '-'. */
    method Repeat(s: nat, p: nat, ep: nat, ghost depth: nat) returns (r: Option<nat>)
      requires ExpandPre(s, p, ep, depth) && (pat[ep] == '+' || pat[ep] == '*' || pat[ep] == '-') && SingleMatch(ct, src, s, pat[p..ep])
      modifies this, capture
      ensures Answered(r)
      ensures error.None? ==>
                var text, rest := pat[p..ep], Parse(pat, ep + 1);
                Answer(r, Caps()) ==
                if pat[ep] == '+' then First(LongestFirst(ct, src, text, rest, s + 1, old(Caps())))
                else if pat[ep] == '*' then First(LongestFirst(ct, src, text, rest, s, old(Caps())))
                else First(ShortestFirst(ct, src, text, rest, s, old(Caps())))
      ensures
        var text, rest := pat[p..ep], Parse(pat, ep + 1);
        Paid(if pat[ep] == '+' then LongestPrice(ct, src, text, rest, s + 1, old(Caps()), maxcaptures)
             else if pat[ep] == '*' then LongestPrice(ct, src, text, rest, s, old(Caps()), maxcaptures)
             else ShortestPrice(ct, src, text, rest, s, old(Caps()), maxcaptures))
      decreases |pat| - ep, 2
    {
      if pat[ep] == '-' {
        r := MinExpand(s, p, ep, depth);
      } else {
        r := MaxExpand(if pat[ep] == '+' then s + 1 else s, p, ep, depth);
      }
    }

    /** The '?' suffix: with the character first, then without it. */
    method StepOptional(s: nat, p: nat, ep: nat, ghost depth: nat) returns (turn: Turn)
      requires StepPre(s, p, depth) && Parse(pat, p) == ParseSingle(pat, p) && error.None?
      requires ClassEnd(pat, p) == Some(ep) && SingleMatch(ct, src, s, pat[p..ep]) && At(pat, ep) == '?'
      modifies this, capture
      ensures StepPost(s, p, turn)
      decreases |pat| - p, 0
    {
      hide Outcomes, PriceOf, LongestFirst, LongestPrice, ShortestFirst, ShortestPrice, Parse, ParseSingle;
      SingleOutcomes(ct, src, pat, s, p, ep, Caps());
      SinglePrice(ct, src, pat, s, p, ep, Caps(), maxcaptures);
      var r := Match(s + 1, ep + 1, depth);
      if r.Some? {
        return Return(r);
      }
      return Again(s, ep + 1);
    }

    ghost predicate ExpandPre(s: nat, p: nat, ep: nat, depth: nat)
      reads this, capture
    {
      StepPre(s, p, depth) && error.None? && p < ep < |pat| && ItemText(pat[p..ep])
    }

    method MaxExpand(s: nat, p: nat, ep: nat, ghost depth: nat) returns (r: Option<nat>)
      requires ExpandPre(s, p, ep, depth)
      modifies this, capture
      ensures Answered(r)
      ensures error.None? ==> Answer(r, Caps()) == First(LongestFirst(ct, src, pat[p..ep], Parse(pat, ep + 1), s, old(Caps())))
      ensures Paid(LongestPrice(ct, src, pat[p..ep], Parse(pat, ep + 1), s, old(Caps()), maxcaptures))
      decreases |pat| - ep, 1
    {
      hide Parse, Outcomes, PriceOf, LongestFirst;
      ghost var text, rest, caps := pat[p..ep], Parse(pat, ep + 1), Caps();
      var i: int := CountRun(s, pat[p..ep]);
      ghost var most := i;
      while i >= 0
        invariant -1 <= i <= most && Valid() && (i >= 0 ==> Run(ct, src, text, s, i))
        invariant Caps() == caps
        invariant error.None? ==> matchdepth == old(matchdepth)
        invariant error.None? && i < most ==> NoLonger(text, rest, s + i + 1, caps)
        invariant Paid(if i < most then LongestPrice(ct, src, text, rest, s + i + 1, caps, maxcaptures) else FREE)
      {
        LongestCosts(ct, src, text, rest, s, i, caps, maxcaptures);
        r := MatchAfterRun(s, i, p, ep, depth);
        if r.Some? {
          return r;
        }
        i := i - 1;
      }
      return None;
    }

    /** One try of the second loop of `max_expand`: the rest of the pattern after `i` items. */
    method MatchAfterRun(s: nat, i: nat, p: nat, ep: nat, ghost depth: nat) returns (r: Option<nat>)
      requires p < ep < |pat| && ItemText(pat[p..ep]) && Run(ct, src, pat[p..ep], s, i)
      requires Valid() && CapsWithin(Caps(), s) && DepthOk(depth, ep + 1)
      requires error.None? && SingleMatch(ct, src, s + i, pat[p..ep]) ==>
                 NoLonger(pat[p..ep], Parse(pat, ep + 1), s + i + 1, Caps())
      modifies this, capture
      ensures Answered(r)
      ensures error.None? && r.Some? ==>
                Answer(r, Caps()) == First(LongestFirst(ct, src, pat[p..ep], Parse(pat, ep + 1), s, old(Caps())))
      ensures error.None? && r.None? ==> NoLonger(pat[p..ep], Parse(pat, ep + 1), s + i, old(Caps()))
      ensures error.None? && r.Some? ==> LongestFirst(ct, src, pat[p..ep], Parse(pat, ep + 1), s + i, old(Caps())) != []
      ensures Paid(Called(PriceOf(ct, src, Parse(pat, ep + 1), s + i, old(Caps()), maxcaptures)))
      decreases |pat| - ep, 0
    {
      ghost var caps := Caps();
      r := Match(s + i, ep + 1, depth);
      if error.None? {
        LongestBacktracks(ct, src, pat[p..ep], Parse(pat, ep + 1), s, i, caps);
      }
    }

    ghost predicate NoLonger(text: string, rest: Pattern, s: nat, caps: seq<Capture>)
      requires s <= |src| && ItemText(text) && ValidPattern(rest)
    {
      LongestFirst(ct, src, text, rest, s, caps) == []
    }

    /** The first loop of `max_expand`: the longest run of the item. */
    method CountRun(s: nat, text: string) returns (i: nat)
      requires s <= |src| && ItemText(text)
      ensures Run(ct, src, text, s, i) && !SingleMatch(ct, src, s + i, text)
    {
      i := 0;
      while SingleMatch(ct, src, s + i, text)
        invariant Run(ct, src, text, s, i)
        decreases |src| - s - i
      {
        i := i + 1;
      }
    }

    method MinExpand(s0: nat, p: nat, ep: nat, ghost depth: nat) returns (r: Option<nat>)
      requires ExpandPre(s0, p, ep, depth)
      modifies this, capture
      ensures Answered(r)
      ensures error.None? ==> Answer(r, Caps()) == First(ShortestFirst(ct, src, pat[p..ep], Parse(pat, ep + 1), s0, old(Caps())))
      ensures Paid(ShortestPrice(ct, src, pat[p..ep], Parse(pat, ep + 1), s0, old(Caps()), maxcaptures))
      decreases |pat| - ep, 0
    {
      hide Parse, Outcomes, PriceOf;
      ghost var text, rest, caps := pat[p..ep], Parse(pat, ep + 1), Caps();
      ghost var best := First(ShortestFirst(ct, src, text, rest, s0, caps));
      ghost var price := ShortestPrice(ct, src, text, rest, s0, caps, maxcaptures);
      var s := s0;
      while true
        invariant s0 <= s <= |src| && Valid()
        invariant Caps() == caps
        invariant error.None? ==>
            StillToPay(ShortestPrice(ct, src, text, rest, s, caps, maxcaptures), price, old(repetitioncounter), old(matchdepth))
        invariant error.Some? ==> Justified(error.value, price, old(repetitioncounter), old(matchdepth))
        invariant error.None? ==> matchdepth == old(matchdepth)
        invariant error.None? ==> First(ShortestFirst(ct, src, text, rest, s, caps)) == best
        decreases |src| - s
      {
        r := Match(s, ep + 1, depth);
        if r.Some? {
          return r;
        } else if SingleMatch(ct, src, s, pat[p..ep]) {
          s := s + 1;
        } else {
          return None;
        }
      }
    }
  }
}
