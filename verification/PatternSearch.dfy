/**
 * The search around the matcher: the plain fast path, the scan over start
 * positions, and the offsets and strings reported to the caller.
 */
module PatternSearch {
  import opened Options
  import opened Sequences
  import opened PatternSyntax
  import opened PatternSemantics
  import opened PatternFacts
  import opened PatternMatcher

  /** The characters of SPECIALS; ')' is not one of them. */
  predicate IsSpecial(c: char) {
    c == '^' || c == '$' || c == '*' || c == '+' || c == '?' || c == '.' || c == '(' || c == '[' || c == '%' || c == '-'
  }

  /** One reported stretch of the subject: `sm_so` and `sm_eo`. */
  datatype Span = Span(so: int, eo: int)

  /** A match found: where it starts and how it ends. */
  datatype Hit = Hit(start: nat, outcome: Outcome)

  // ---- what a search should find ---------------------------------------------------

  /** The first outcome at the least start position from `s` on (only at `s` when anchored). */
  function Leftmost(ct: CharTypes, src: string, pt: Pattern, s: nat, anchored: bool): Option<Hit>
    requires s <= |src| && ValidPattern(pt)
    decreases |src| - s
  {
    var here := Outcomes(ct, src, pt, s, []);
    if here != [] then Some(Hit(s, here[0]))
    else if anchored || s == |src| then None
    else Leftmost(ct, src, pt, s + 1, anchored)
  }

  function IsAnchored(pattern: CString): bool {
    |pattern| > 0 && pattern[0] == '^'
  }

  function Unanchored(pattern: CString): CString {
    if IsAnchored(pattern) then pattern[1..] else pattern
  }

  function Searched(ct: CharTypes, src: CString, pattern: CString, init: nat): Option<Hit>
    requires init <= |src|
  {
    Leftmost(ct, src, Parse(Unanchored(pattern), 0), init, IsAnchored(pattern))
  }

  /** The price of the search over all start positions, which share the budgets. */
  function SearchPrice(ct: CharTypes, src: string, pt: Pattern, s: nat, anchored: bool, most: nat): Price
    requires s <= |src| && ValidPattern(pt)
    decreases |src| - s
  {
    Both(Called(PriceOf(ct, src, pt, s, [], most)),
         if Outcomes(ct, src, pt, s, []) == [] && !anchored && s < |src| then SearchPrice(ct, src, pt, s + 1, anchored, most) else FREE)
  }

  /** The price of searching for a whole pattern from `init`. */
  function PatternPrice(ct: CharTypes, src: CString, pattern: CString, init: nat, most: nat): Price
    requires init <= |src|
  {
    SearchPrice(ct, src, Parse(Unanchored(pattern), 0), init, IsAnchored(pattern), most)
  }

  /**
   * A pattern of fewer than MAXCCALLS characters is never too complex, and a pattern without a
   * flaw in its text never errs for one, whatever the subject.
   */
  lemma {:induction false} SearchBounds(ct: CharTypes, src: string, pat: CString, s: nat, anchored: bool, most: nat)
    requires s <= |src|
    ensures
      var price := SearchPrice(ct, src, Parse(pat, 0), s, anchored, most);
      price.calls <= |pat| + 1 && (price.flaw ==> Flawed(Parse(pat, 0), [], most))
    decreases |src| - s
  {
    hide PriceOf, Outcomes, Parse, ItemCount, Flawed;
    PriceBounds(ct, src, Parse(pat, 0), s, [], most);
    assert Shape([]) == [];
    LengthOfText(pat, 0);
    if s < |src| {
      SearchBounds(ct, src, pat, s + 1, anchored, most);
    }
  }

  /** A start position at which the pattern can match at all. */
  ghost predicate MatchesAt(ct: CharTypes, src: string, pt: Pattern, s: nat)
    requires s <= |src| && ValidPattern(pt)
  {
    exists o :: Matches(ct, src, pt, s, [], o)
  }

  /** The search is leftmost and complete, stated without any order of trying. */
  lemma {:induction false} LeftmostIsLeast(ct: CharTypes, src: string, pt: Pattern, s: nat, anchored: bool)
    requires s <= |src| && ValidPattern(pt)
    ensures
      match Leftmost(ct, src, pt, s, anchored)
      case None => forall k :: s <= k <= (if anchored then s else |src|) ==> !MatchesAt(ct, src, pt, k)
      case Some(hit) =>
        s <= hit.start <= |src| && (anchored ==> hit.start == s)
        && Matches(ct, src, pt, hit.start, [], hit.outcome)
        && First(Outcomes(ct, src, pt, hit.start, [])) == Some(hit.outcome)
        && forall k :: s <= k < hit.start ==> !MatchesAt(ct, src, pt, k)
    decreases |src| - s
  {
    var here := Outcomes(ct, src, pt, s, []);
    if here != [] {
      OutcomesEnumerate(ct, src, pt, s, [], here[0]);
    } else {
      forall o ensures !Matches(ct, src, pt, s, [], o) {
        OutcomesEnumerate(ct, src, pt, s, [], o);
      }
      if !anchored && s < |src| {
        LeftmostIsLeast(ct, src, pt, s + 1, anchored);
      }
    }
  }

  /** A pattern written with a leading '^' matches at the first start only, and what follows the '^' is what must match there. */
  lemma AnchoredSearch(ct: CharTypes, src: CString, p: CString, init: nat)
    requires init <= |src| && '\0' !in "^" + p
    ensures
      var found := Searched(ct, src, "^" + p, init);
      && (found.None? <==> !MatchesAt(ct, src, Parse(p, 0), init))
      && (found.Some? ==> found.value.start == init
                          && First(Outcomes(ct, src, Parse(p, 0), init, [])) == Some(found.value.outcome))
  {
    assert ("^" + p)[1..] == p;
    LeftmostIsLeast(ct, src, Parse(p, 0), init, true);
  }

  /** Any other pattern is read as a whole and matches at the least start that allows it. */
  lemma UnanchoredSearch(ct: CharTypes, src: CString, p: CString, init: nat)
    requires init <= |src| && !("^" <= p)
    ensures
      match Searched(ct, src, p, init)
      case None => forall k :: init <= k <= |src| ==> !MatchesAt(ct, src, Parse(p, 0), k)
      case Some(hit) =>
        init <= hit.start <= |src|
        && First(Outcomes(ct, src, Parse(p, 0), hit.start, [])) == Some(hit.outcome)
        && forall k :: init <= k < hit.start ==> !MatchesAt(ct, src, Parse(p, 0), k)
  {
    assert |p| > 0 ==> p[0] != "^"[0];
    LeftmostIsLeast(ct, src, Parse(p, 0), init, false);
  }

  // ---- what is reported ---------------------------------------------------------------

  function CaptureSpan(c: Capture): Span {
    Span(c.init, if c.extent.Length? && c.extent.n >= 0 then c.init + c.extent.n else c.init)
  }

  /** The whole subject, then the captures, or the matched stretch when there are none. */
  function Report(src: string, hit: Hit, nsm: nat): seq<Span> {
    [Span(0, |src|)] + if nsm <= 1 then [] else Groups(hit)
  }

  function Groups(hit: Hit): seq<Span> {
    if |hit.outcome.caps| == 0 then [Span(hit.start, hit.outcome.end)] else CaptureSpans(hit.outcome.caps)
  }

  function CaptureSpans(caps: seq<Capture>): seq<Span> {
    seq(|caps|, i requires 0 <= i < |caps| => CaptureSpan(caps[i]))
  }

  predicate Inside(inner: Span, outer: Span) {
    outer.so <= inner.so && inner.eo <= outer.eo
  }

  ghost predicate LaminarSpans(spans: seq<Span>, whole: Span) {
    (forall sp <- spans :: sp.so <= sp.eo && Inside(sp, whole))
    && forall i, j :: 0 <= i < j < |spans| ==> spans[i].eo <= spans[j].so || Inside(spans[j], spans[i])
  }

  lemma SpansOfLaminar(caps: seq<Capture>, lo: nat, hi: nat)
    requires Laminar(caps, lo, hi) && (forall c <- caps :: !c.extent.Unfinished?)
    ensures LaminarSpans(CaptureSpans(caps), Span(lo, hi))
  {
    var spans := CaptureSpans(caps);
    forall i | 0 <= i < |caps|
      ensures spans[i] == Span(caps[i].init, Stop(caps[i], hi))
    {
      assert caps[i] in caps;
    }
    forall i, j | 0 <= i < j < |caps|
      ensures spans[i].eo <= spans[j].so || Inside(spans[j], spans[i])
    {
      assert NestedOrDisjoint(caps[i], caps[j], hi);
    }
  }

  /** What is reported for a match without open captures lies inside the match and is nested or disjoint. */
  lemma GroupsAreLaminar(ct: CharTypes, src: CString, pattern: CString, init: nat)
    requires init <= |src| && Searched(ct, src, pattern, init).Some?
    requires forall c <- Searched(ct, src, pattern, init).value.outcome.caps :: !c.extent.Unfinished?
    ensures
      var hit := Searched(ct, src, pattern, init).value;
      init <= hit.start <= hit.outcome.end <= |src|
      && LaminarSpans(Groups(hit), Span(hit.start, hit.outcome.end))
  {
    var hit := Searched(ct, src, pattern, init).value;
    var pt := Parse(Unanchored(pattern), 0);
    LeftmostIsLeast(ct, src, pt, init, IsAnchored(pattern));
    MatchesLaminar(ct, src, pt, hit.start, hit.start, [], hit.outcome);
    SpansOfLaminar(hit.outcome.caps, hit.start, hit.outcome.end);
  }

  /** The characters that send a pattern to the general search, as the source lists them. */
  lemma SpecialsAre(c: char)
    ensures IsSpecial(c) <==> c in "^$*+?.([%-"
  {
    var specials := "^$*+?.([%-";
    assert c in specials <==> exists i :: 0 <= i < 10 && specials[i] == c;
    assert specials[0] == '^' && specials[1] == '$' && specials[2] == '*' && specials[3] == '+' && specials[4] == '?';
    assert specials[5] == '.' && specials[6] == '(' && specials[7] == '[' && specials[8] == '%' && specials[9] == '-';
  }

  // ---- the plain fast path ------------------------------------------------------------------

  predicate NoSpecials(pattern: string) {
    forall c <- pattern :: !IsSpecial(c)
  }

  predicate OccursAt(src: string, k: nat, needle: string) {
    k + |needle| <= |src| && src[k..k + |needle|] == needle
  }

  ghost predicate FirstOccurrence(src: string, from: nat, needle: string, r: Option<nat>) {
    match r
    case None => forall k :: from <= k ==> !OccursAt(src, k, needle)
    case Some(i) => from <= i && OccursAt(src, i, needle) && forall k :: from <= k < i ==> !OccursAt(src, k, needle)
  }

  method LMemFind(src: string, from: nat, needle: string) returns (r: Option<nat>)
    requires from <= |src|
    ensures FirstOccurrence(src, from, needle, r)
  {
    if |needle| == 0 {
      return Some(from);
    } else if |needle| > |src| - from {
      return None;
    }
    var l2 := |needle| - 1;
    var s1, l1 := from, |src| - from - l2;
    while l1 > 0
      invariant from <= s1 && 0 <= l1 == |src| - s1 - l2
      invariant forall k :: from <= k < s1 ==> !OccursAt(src, k, needle)
    {
      var at := MemChr(src, s1, l1, needle[0]);
      if at.None? {
        forall k | from <= k
          ensures !OccursAt(src, k, needle)
        {
          SkipTo(src, s1, s1 + l1, needle, k);
        }
        return None;
      }
      var init := at.value + 1;
      forall k | s1 <= k < at.value
        ensures !OccursAt(src, k, needle)
      {
        SkipTo(src, s1, at.value, needle, k);
      }
      assert OccursAt(src, at.value, needle) <==> src[init..init + l2] == needle[1..] by {
        assert src[at.value..init + l2] == [src[at.value]] + src[init..init + l2];
        assert needle == [needle[0]] + needle[1..];
      }
      if src[init..init + l2] == needle[1..] {
        return Some(init - 1);
      }
      l1 := l1 - (init - s1);
      s1 := init;
    }
    return None;
  }

  /** No occurrence starts in a stretch without the first character. */
  lemma SkipTo(src: string, lo: nat, hi: nat, needle: string, k: nat)
    requires lo <= hi <= |src| && |needle| > 0 && needle[0] !in src[lo..hi]
    ensures lo <= k < hi ==> !OccursAt(src, k, needle)
  {
    if lo <= k < hi {
      assert src[lo..hi][k - lo] == src[k];
      assert k + |needle| <= |src| ==> src[k..k + |needle|][0] == src[k];
    }
  }

  predicate Literal(pattern: string) {
    NoSpecials(pattern) && ')' !in pattern
  }

  /** A literal pattern matches by being there. */
  lemma {:induction false} LiteralOutcomes(ct: CharTypes, src: string, pat: CString, p: nat, s: nat, caps: seq<Capture>)
    requires p <= |pat| && s <= |src| && Literal(pat)
    ensures Outcomes(ct, src, Parse(pat, p), s, caps) ==
            if OccursAt(src, s, pat[p..]) then [Outcome(s + |pat| - p, caps)] else []
    decreases |pat| - p
  {
    hide OccursAt, Parse;
    if p == |pat| {
      NothingLeft(src, pat, s);
    } else {
      LiteralItem(pat, p);
      assert !IsSpecial(pat[p]) by {
        assert pat[p] in pat;
      }
      assert pat[p..][0] == pat[p] && pat[p..][1..] == pat[p + 1..];
      OccursStep(src, s, pat[p..]);
      if s < |src| && src[s] == pat[p] {
        LiteralOutcomes(ct, src, pat, p + 1, s + 1, caps);
      }
    }
  }

  lemma NothingLeft(src: string, pat: CString, s: nat)
    requires s <= |src|
    ensures Parse(pat, |pat|) == Done && OccursAt(src, s, pat[|pat|..])
  {
  }

  lemma OccursStep(src: string, s: nat, needle: string)
    requires s <= |src| && |needle| > 0
    ensures OccursAt(src, s, needle) <==> s < |src| && src[s] == needle[0] && OccursAt(src, s + 1, needle[1..])
  {
    if s + |needle| <= |src| {
      var here := src[s..s + |needle|];
      assert here[0] == src[s] && here[1..] == src[s + 1..s + |needle|];
      assert needle == [needle[0]] + needle[1..] && here == [here[0]] + here[1..];
    }
  }

  lemma LiteralItem(pat: CString, p: nat)
    requires p < |pat| && NoSpecials(pat) && pat[p] != ')'
    ensures Parse(pat, p) == Then(Single([pat[p]], Once), Parse(pat, p + 1))
  {
    assert pat[p] in pat;
    assert p + 1 < |pat| ==> pat[p + 1] in pat;
    assert pat[p..p + 1] == [pat[p]];
  }

  /** A ')' with nothing open kills every match of an otherwise literal pattern. */
  lemma {:induction false} StrayCloseHasNoOutcome(ct: CharTypes, src: string, pat: CString, p: nat, s: nat)
    requires p <= |pat| && s <= |src| && NoSpecials(pat) && ')' in pat[p..]
    ensures Outcomes(ct, src, Parse(pat, p), s, []) == []
    decreases |pat| - p
  {
    if pat[p] != ')' {
      LiteralItem(pat, p);
      assert pat[p..] == [pat[p]] + pat[p + 1..];
      if s < |src| {
        StrayCloseHasNoOutcome(ct, src, pat, p + 1, s + 1);
      }
    } else {
      assert pat[p] in pat;
    }
  }

  /** The hit the fast path stands for. */
  function PlainHit(i: nat, pattern: string): Hit {
    Hit(i, Outcome(i + |pattern|, []))
  }

  /** The first occurrence, if any, is what the general search would report. */
  ghost predicate PlainAgrees(ct: CharTypes, src: CString, pattern: CString, init: nat)
    requires init <= |src|
  {
    forall r :: FirstOccurrence(src, init, pattern, r) ==>
      Searched(ct, src, pattern, init) == if r.None? then None else Some(PlainHit(r.value, pattern))
  }

  lemma {:induction false} LiteralSearch(ct: CharTypes, src: CString, pattern: CString, init: nat, s: nat, r: Option<nat>)
    requires Literal(pattern) && init <= s <= |src| && FirstOccurrence(src, init, pattern, r)
    requires r.Some? ==> s <= r.value
    ensures Leftmost(ct, src, Parse(pattern, 0), s, false) ==
            if r.None? then None else Some(PlainHit(r.value, pattern))
    decreases |src| - s
  {
    LiteralOutcomes(ct, src, pattern, 0, s, []);
    assert pattern[0..] == pattern;
    if !OccursAt(src, s, pattern) && s < |src| {
      LiteralSearch(ct, src, pattern, init, s + 1, r);
    }
  }

  lemma {:induction false} StrayCloseFindsNothing(ct: CharTypes, src: CString, pattern: CString, s: nat)
    requires NoSpecials(pattern) && ')' in pattern && s <= |src|
    ensures Leftmost(ct, src, Parse(pattern, 0), s, false) == None
    decreases |src| - s
  {
    assert pattern[0..] == pattern;
    StrayCloseHasNoOutcome(ct, src, pattern, 0, s);
    if s < |src| {
      StrayCloseFindsNothing(ct, src, pattern, s + 1);
    }
  }

  /** A literal pattern is cheap: one refused item at most for every start, and no nested call. */
  lemma {:induction false} LiteralPrice(ct: CharTypes, src: string, pat: CString, p: nat, s: nat, caps: seq<Capture>, most: nat)
    requires p <= |pat| && s <= |src| && Literal(pat)
    ensures var price := PriceOf(ct, src, Parse(pat, p), s, caps, most); price.misses <= 1 && price.calls == 0 && !price.flaw
    decreases |pat| - p
  {
    hide Parse;
    if p == |pat| {
      NothingLeft(src, pat, s);
    } else {
      LiteralItem(pat, p);
      if s < |src| {
        LiteralPrice(ct, src, pat, p + 1, s + 1, caps, most);
      }
    }
  }

  lemma {:induction false} LiteralSearchPrice(ct: CharTypes, src: string, pat: CString, s: nat, most: nat)
    requires s <= |src| && Literal(pat)
    ensures var price := SearchPrice(ct, src, Parse(pat, 0), s, false, most); price.misses <= |src| - s + 1 && price.calls == 1 && !price.flaw
    decreases |src| - s
  {
    hide PriceOf, Outcomes, Parse;
    LiteralPrice(ct, src, pat, 0, s, [], most);
    if s < |src| {
      LiteralSearchPrice(ct, src, pat, s + 1, most);
    }
  }

  /**
   * When the fast path is taken, it agrees with the general search on a subject exactly when
   * the pattern has no ')', the special character SPECIALS leaves out, or does not occur in it.
   */
  lemma PlainPathAgreesIff(ct: CharTypes, src: CString, pattern: CString, init: nat)
    requires NoSpecials(pattern) && init <= |src|
    ensures PlainAgrees(ct, src, pattern, init) <==> ')' !in pattern || FirstOccurrence(src, init, pattern, None)
  {
    assert !IsAnchored(pattern) by {
      assert |pattern| > 0 ==> pattern[0] in pattern;
    }
    if ')' !in pattern {
      forall r | FirstOccurrence(src, init, pattern, r)
        ensures Searched(ct, src, pattern, init) == if r.None? then None else Some(PlainHit(r.value, pattern))
      {
        LiteralSearch(ct, src, pattern, init, init, r);
      }
    } else {
      StrayCloseFindsNothing(ct, src, pattern, init);
      if !FirstOccurrence(src, init, pattern, None) {
        var i := LeastOccurrence(src, pattern, init);
        assert FirstOccurrence(src, init, pattern, Some(i));
      }
    }
  }

  /** Some occurrence from `from` on implies a first one. */
  lemma {:induction false} LeastOccurrence(src: string, needle: string, from: nat) returns (i: nat)
    requires exists k :: from <= k && OccursAt(src, k, needle)
    ensures FirstOccurrence(src, from, needle, Some(i))
    decreases |src| - from
  {
    if OccursAt(src, from, needle) {
      i := from;
    } else {
      i := LeastOccurrence(src, needle, from + 1);
    }
  }

  /** So it agrees on every subject exactly when the pattern has no ')'. */
  lemma PlainPathAgreesEverywhereIff(ct: CharTypes, pattern: CString)
    requires NoSpecials(pattern)
    ensures ')' !in pattern <==> forall src: CString, init: nat :: init <= |src| ==> PlainAgrees(ct, src, pattern, init)
  {
    forall src: CString, init: nat | init <= |src|
      ensures PlainAgrees(ct, src, pattern, init) <==> ')' !in pattern || FirstOccurrence(src, init, pattern, None)
    {
      PlainPathAgreesIff(ct, src, pattern, init);
    }
    assert OccursAt(pattern, 0, pattern);
    assert !FirstOccurrence(pattern, 0, pattern, None);
  }

  /** "a)" is found in "a)" by the fast path although, read as a pattern, it matches nothing. */
  lemma FastPathAcceptsStrayClose(ct: CharTypes)
    ensures NoSpecials("a)") && !PlainAgrees(ct, "a)", "a)", 0)
  {
    StrayCloseFindsNothing(ct, "a)", "a)", 0);
    assert OccursAt("a)", 0, "a)");
    assert FirstOccurrence("a)", 0, "a)", Some(0));
  }
}
