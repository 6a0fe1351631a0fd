/** The entry points of `patterns.c`: `str_find_aux` and `str_match`. */
module PatternFind {
  import opened Options
  import opened PatternSyntax
  import opened PatternSemantics
  import opened PatternFacts
  import opened PatternMatcher
  import opened PatternSearch
  import opened PatternWalk

  /** What a search from `init` finds: the first occurrence of a plain pattern, else the leftmost match. */
  ghost predicate Located(ct: CharTypes, src: CString, pattern: CString, init: nat, found: Option<Hit>)
    requires init <= |src|
  {
    if NoSpecials(pattern) then
      exists r :: FirstOccurrence(src, init, pattern, r)
                  && found == if r.None? then None else Some(PlainHit(r.value, pattern))
    else
      found == Searched(ct, src, pattern, init)
  }

  /** The returned count and the filled part of the table describe `found`. */
  ghost predicate Reports(src: string, found: Option<Hit>, ret: int, sm: seq<Span>) {
    match found
    case None => ret == 0
    case Some(hit) =>
      var spans := Report(src, hit, |sm|);
      ret == |spans| <= |sm| && sm[..ret] == spans
  }

  /** How many captures a table of `nsm` entries leaves room for. */
  function Room(nsm: nat): nat
    requires nsm >= 1
  {
    (if nsm > MAXCAPTURES then MAXCAPTURES else nsm) - 1
  }

  /** Both budgets cover the price, and no flaw is run into. */
  predicate Affordable(price: Price) {
    price.misses <= MAXREPETITION && price.calls <= MAXCCALLS && !price.flaw
  }

  /** An open capture is reported of the match found; every other error is justified by the price of the search. */
  ghost predicate Rightly(ct: CharTypes, src: CString, pattern: CString, init: nat, nsm: nat, error: MatchError)
    requires init <= |src| && nsm >= 1
  {
    if error.UnfinishedCapture? then
      var found := Searched(ct, src, pattern, init);
      found.Some? && !AllFinished(found.value.outcome.caps)
    else Justified(error, PatternPrice(ct, src, pattern, init, Room(nsm)), MAXREPETITION, MAXCCALLS)
  }

  /** Only budget errors depend on more than the text of the pattern, and short patterns are never too complex. */
  lemma ErrorsFromText(ct: CharTypes, src: CString, pattern: CString, init: nat, nsm: nat, error: MatchError)
    requires init <= |src| && nsm >= 1 && Rightly(ct, src, pattern, init, nsm, error)
    ensures error.TooComplex? ==> |pattern| >= MAXCCALLS
    ensures !error.TooComplex? && !error.MaxRepetition? ==> Flawed(Parse(Unanchored(pattern), 0), [], Room(nsm))
  {
    hide Flawed, Parse, Outcomes, PriceOf;
    var p := Unanchored(pattern);
    SearchBounds(ct, src, p, init, IsAnchored(pattern), Room(nsm));
    if error.UnfinishedCapture? {
      var hit := Searched(ct, src, pattern, init).value;
      LeftmostIsLeast(ct, src, Parse(p, 0), init, IsAnchored(pattern));
      HitIsWithin(ct, src, Parse(p, 0), hit.start, hit.outcome, Room(nsm));
    }
  }

  ghost predicate AllFinished(caps: seq<Capture>) {
    forall c <- caps :: !c.extent.Unfinished?
  }

  /** `push_onecapture` for capture `i`, into `sm[i + 1]`; false when it is still open. */
  method PushOneCapture(ms: MatchState, i: nat, start: nat, end: nat, sm: array<Span>) returns (ok: bool)
    requires ms.Valid() && i + 1 < sm.Length && (i < ms.level || i == 0)
    modifies ms`error, sm
    ensures ms.Valid()
    ensures forall k :: 0 <= k < sm.Length && k != i + 1 ==> sm[k] == old(sm[k])
    ensures ok <==> i >= ms.level || !ms.capture[i].extent.Unfinished?
    ensures ok ==> ms.error == old(ms.error)
    ensures ok && i < ms.level ==> sm[i + 1] == CaptureSpan(ms.capture[i])
    ensures ok && i >= ms.level && start <= end ==> sm[i + 1] == Span(start, end)
    ensures !ok ==> ms.error == if old(ms.error).None? then Some(UnfinishedCapture) else old(ms.error)
  {
    var so, eo;
    if i >= ms.level {
      so, eo := start, (end - start) + start;
    } else {
      var c := ms.capture[i];
      if c.extent.Unfinished? {
        ms.MatchFailure(UnfinishedCapture);
        return false;
      }
      so := c.init;
      eo := so + if c.extent.Point? then -2 else c.extent.n;
    }
    sm[i + 1] := Span(so, if eo < so then so else eo);
    return true;
  }

  /** `push_captures`, writing from `sm[1]` on. */
  method PushCaptures(ms: MatchState, start: nat, end: nat, sm: array<Span>) returns (n: nat)
    requires ms.Valid() && 1 <= sm.Length && ms.level < sm.Length
    modifies ms`error, sm
    ensures sm[0] == old(sm[0]) && n < sm.Length
    ensures start <= end && AllFinished(ms.Caps()) ==>
              var spans := if sm.Length <= 1 then [] else Groups(Hit(start, Outcome(end, ms.Caps())));
              n == |spans| && sm[1..n + 1] == spans
    ensures ms.error == if AllFinished(ms.Caps()) || old(ms.error).Some? then old(ms.error) else Some(UnfinishedCapture)
  {
    n := if ms.level <= 0 then 1 else ms.level;
    if n > sm.Length - 1 {
      n := sm.Length - 1;
    }
    ghost var caps := ms.Caps();
    var i := 0;
    while i < n
      invariant i <= n && ms.Valid() && sm[0] == old(sm[0])
      invariant ms.error == old(ms.error)
      invariant forall k :: 0 <= k < i && k < |caps| ==> !caps[k].extent.Unfinished? && sm[k + 1] == CaptureSpan(caps[k])
      invariant i > 0 && |caps| == 0 && start <= end ==> sm[1] == Span(start, end)
    {
      var ok := PushOneCapture(ms, i, start, end, sm);
      if !ok {
        assert caps[i] in caps;
        break;
      }
      i := i + 1;
    }
  }

  method StrFindAux(ct: CharTypes, pattern: CString, src: CString, sm: array<Span>, init: int)
    returns (ret: int, error: Option<MatchError>, ghost found: Option<Hit>)
    requires sm.Length >= 1
    modifies sm
    ensures init > |src| ==> ret == -1 && error == Some(StartAfterEnd)
    ensures init <= |src| && error.None? ==>
              Located(ct, src, pattern, if init < 0 then 0 else init, found) && Reports(src, found, ret, sm[..])
    ensures init <= |src| && error.Some? ==>
              !NoSpecials(pattern) && Rightly(ct, src, pattern, if init < 0 then 0 else init, sm.Length, error.value)
    ensures init <= |src| && error.None? && !NoSpecials(pattern) ==>
              Affordable(PatternPrice(ct, src, pattern, if init < 0 then 0 else init, Room(sm.Length)))
    ensures init <= |src| && error.None? && !NoSpecials(pattern) && found.Some? ==> AllFinished(found.value.outcome.caps)
    ensures init <= |src| && error.None? && found.Some? ==>
              var hit := found.value;
              hit.start <= hit.outcome.end <= |src| && LaminarSpans(sm[1..ret], Span(hit.start, hit.outcome.end))
  {
    found := None;
    var s1: nat := 0;
    if init > |src| {
      return -1, Some(StartAfterEnd), None;
    } else if init >= 0 {
      s1 := init;
    }
    if NoSpecials(pattern) {
      var s2 := LMemFind(src, s1, pattern);
      if s2.Some? {
        var i := 0;
        sm[0] := Span(0, |src|);
        if sm.Length > 1 {
          i := 1;
          sm[1] := Span(s2.value, s2.value + |pattern|);
        }
        found := Some(PlainHit(s2.value, pattern));
        assert sm[1..i + 1] == if i == 0 then [] else [Span(s2.value, s2.value + |pattern|)];
        return i + 1, None, found;
      }
      return 0, None, None;
    }
    ret, error, found := SearchGeneral(ct, pattern, src, sm, s1);
    if error.None? && found.Some? {
      GroupsAreLaminar(ct, src, pattern, s1);
      assert sm[1..ret] == sm[..ret][1..] == Report(src, found.value, sm.Length)[1..];
    }
  }

  method SearchGeneral(ct: CharTypes, pattern: CString, src: CString, sm: array<Span>, init: nat)
    returns (ret: int, error: Option<MatchError>, ghost found: Option<Hit>)
    requires sm.Length >= 1 && init <= |src|
    modifies sm
    ensures error.None? ==> found == Searched(ct, src, pattern, init) && Reports(src, found, ret, sm[..])
    ensures error.None? && found.Some? ==> AllFinished(found.value.outcome.caps)
    ensures error.Some? ==> Rightly(ct, src, pattern, init, sm.Length, error.value)
    ensures error.None? ==> Affordable(PatternPrice(ct, src, pattern, init, Room(sm.Length)))
  {
    hide Parse, Outcomes, PriceOf, Flawed;
    var anchored, p := IsAnchored(pattern), Unanchored(pattern);
    var ms := new MatchState(ct, src, p, sm.Length);
    ghost var pt := Parse(p, 0);
    var s1 := init;
    while true
      invariant init <= s1 <= |src| && fresh(ms) && fresh(ms.capture) && ReadyFor(ms, ct, src, p, sm.Length)
      invariant Leftmost(ct, src, pt, s1, anchored) == Searched(ct, src, pattern, init)
      invariant ms.StillToPay(SearchPrice(ct, src, pt, s1, anchored, Room(sm.Length)),
                              PatternPrice(ct, src, pattern, init, Room(sm.Length)), MAXREPETITION, MAXCCALLS)
      decreases |src| - s1
    {
      var res, n := MatchFrom(ms, s1, sm);
      if res.Some? {
        found := Some(Hit(s1, Outcome(res.value, ms.Caps())));
        return n + 1, ms.error, found;
      } else if ms.error.Some? {
        return 0, ms.error, None;
      }
      if s1 == |src| || anchored {
        return 0, None, None;
      }
      s1 := s1 + 1;
    }
  }

  /** The state at the head of the loop over start positions. */
  ghost predicate ReadyFor(ms: MatchState, ct: CharTypes, src: CString, p: CString, nsm: nat)
    reads ms, ms.capture
  {
    ms.Valid() && ms.ct == ct && ms.src == src && ms.pat == p && ms.error.None? && ms.matchdepth == MAXCCALLS
    && nsm >= 1 && ms.maxcaptures == Room(nsm)
  }

  /** One start position: match there and, if that succeeds, store the offsets. */
  method MatchFrom(ms: MatchState, s1: nat, sm: array<Span>) returns (res: Option<nat>, n: nat)
    requires ReadyFor(ms, ms.ct, ms.src, ms.pat, sm.Length) && s1 <= |ms.src|
    modifies ms, ms.capture, sm
    ensures ms.Valid()
    ensures ms.error.None? ==> ReadyFor(ms, ms.ct, ms.src, ms.pat, sm.Length)
    ensures ms.error.None? ==>
              Answer(res, ms.Caps()) == (if res.Some? then First(Outcomes(ms.ct, ms.src, Parse(ms.pat, 0), s1, [])) else None)
              && (res.None? <==> Outcomes(ms.ct, ms.src, Parse(ms.pat, 0), s1, []) == [])
    ensures ms.error.None? && res.Some? ==>
              var hit := Hit(s1, Outcome(res.value, ms.Caps()));
              AllFinished(ms.Caps()) && Reports(ms.src, Some(hit), n + 1, sm[..])
    ensures
      var price := Called(PriceOf(ms.ct, ms.src, Parse(ms.pat, 0), s1, [], ms.maxcaptures));
      if ms.error.None? then
        ms.repetitioncounter == old(ms.repetitioncounter) - price.misses && price.calls <= MAXCCALLS && !price.flaw
      else if ms.error.value.UnfinishedCapture? then
        res.Some? && !AllFinished(ms.Caps())
        && First(Outcomes(ms.ct, ms.src, Parse(ms.pat, 0), s1, [])) == Some(Outcome(res.value, ms.Caps()))
      else Justified(ms.error.value, price, old(ms.repetitioncounter), MAXCCALLS)
  {
    n := 0;
    ms.level := 0;
    assert ms.Caps() == [] && Shape([]) == [];
    res := ms.Match(s1, 0, 0);
    if res.Some? {
      if ms.error.None? {
        HitIsWithin(ms.ct, ms.src, Parse(ms.pat, 0), s1, Outcome(res.value, ms.Caps()), ms.maxcaptures);
      }
      sm[0] := Span(0, |ms.src|);
      n := PushCaptures(ms, s1, res.value, sm);
      assert sm[..n + 1] == [sm[0]] + sm[1..n + 1];
    }
  }

  lemma HitIsWithin(ct: CharTypes, src: string, pt: Pattern, s: nat, o: Outcome, most: nat)
    requires s <= |src| && ValidPattern(pt) && First(Outcomes(ct, src, pt, s, [])) == Some(o)
    ensures s <= o.end <= |src|
    ensures !AllFinished(o.caps) ==> Flawed(pt, [], most)
  {
    OutcomesEnumerate(ct, src, pt, s, [], o);
    MatchesLaminar(ct, src, pt, s, s, [], o);
    if !AllFinished(o.caps) {
      UnfinishedMeansFlawed(ct, src, pt, s, [], o, most);
      assert Shape([]) == [];
    }
  }

  // ---- str_match ----------------------------------------------------------------------

  datatype MatchResult = Failure(error: Option<MatchError>) | Success(strings: seq<string>)

  function Text(src: string, span: Span): string {
    if 0 <= span.so <= span.eo <= |src| then src[span.so..span.eo] else ""
  }

  function Texts(src: string, spans: seq<Span>): seq<string> {
    seq(|spans|, i requires 0 <= i < |spans| => Text(src, spans[i]))
  }

  /** `str_match`: the subject, then the texts of the captures or of the match itself. */
  method StrMatch(ct: CharTypes, src: CString, pattern: CString) returns (r: MatchResult, ghost found: Option<Hit>)
    ensures !(r.Failure? && r.error.Some?) ==> Located(ct, src, pattern, 0, found)
    ensures r.Failure? && r.error.None? ==> found.None?
    ensures r.Failure? && r.error.Some? ==>
              !NoSpecials(pattern)
              && Rightly(ct, src, pattern, 0, MAXCAPTURES, r.error.value)
    ensures !(r.Failure? && r.error.Some?) && !NoSpecials(pattern) ==> Affordable(PatternPrice(ct, src, pattern, 0, Room(MAXCAPTURES)))
    ensures r.Success? ==> found.Some? && r.strings == [src] + Texts(src, Groups(found.value))
    ensures r.Success? && NoSpecials(pattern) ==> r.strings == [src, pattern]
    ensures r.Success? && !NoSpecials(pattern) ==> Stretched(ct, src, pattern, found.value, r.strings)
  {
    hide Outcomes, Parse, Walk, Leftmost, PriceOf, SearchPrice;
    var sm := new Span[MAXCAPTURES](_ => Span(0, 0));
    var ret, error;
    ret, error, found := StrFindAux(ct, pattern, src, sm, 0);
    if ret <= 0 || error.Some? {
      return Failure(error), found;
    }
    SpansInBounds(ct, src, pattern, found);
    var strings := CopyStrings(src, sm, ret);
    assert Text(src, Span(0, |src|)) == src;
    assert Texts(src, Report(src, found.value, MAXCAPTURES)) == [src] + Texts(src, Groups(found.value));
    r := Success(strings);
    if NoSpecials(pattern) {
      PlainText(src, pattern, found.value.start);
    } else {
      ghost var pos := SearchedStretches(ct, src, pattern, 0);
      assert Stretched(ct, src, pattern, found.value, strings);
    }
  }

  /** The subject, then the texts between the positions at which the brackets were passed on some walk. */
  ghost predicate Stretched(ct: CharTypes, src: CString, pattern: CString, hit: Hit, strings: seq<string>) {
    var pt := Parse(Unanchored(pattern), 0);
    exists pos :: Walk(ct, src, pt, hit.start, pos, hit.outcome) && strings == [src] + Texts(src, Stretches(Items(pt), pos))
  }

  /** The text of a plain hit is the pattern itself. */
  lemma PlainText(src: string, pattern: string, i: nat)
    requires OccursAt(src, i, pattern)
    ensures Texts(src, Groups(PlainHit(i, pattern))) == [pattern]
  {
  }

  /** The loop of `str_match` that duplicates each reported stretch. */
  method CopyStrings(src: string, sm: array<Span>, ret: nat) returns (strings: seq<string>)
    requires ret <= sm.Length && forall sp <- sm[..ret] :: 0 <= sp.so <= sp.eo <= |src|
    ensures strings == Texts(src, sm[..ret])
  {
    strings := [];
    for i := 0 to ret
      invariant |strings| == i
      invariant forall k :: 0 <= k < i ==> strings[k] == Text(src, sm[k])
    {
      assert sm[i] in sm[..ret];
      strings := strings + [src[sm[i].so..sm[i].eo]];
    }
  }

  lemma SpansInBounds(ct: CharTypes, src: CString, pattern: CString, found: Option<Hit>)
    requires found.Some? && Located(ct, src, pattern, 0, found)
    requires !NoSpecials(pattern) ==> AllFinished(found.value.outcome.caps)
    ensures forall sp <- Report(src, found.value, MAXCAPTURES) :: 0 <= sp.so <= sp.eo <= |src|
  {
    if !NoSpecials(pattern) {
      GroupsAreLaminar(ct, src, pattern, 0);
    }
  }
}
