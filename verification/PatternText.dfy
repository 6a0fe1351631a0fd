/**
 * Patterns and their text: writing the item sequence of a text gives the text back,
 * and reading a written item sequence gives the sequence back.
 */
module PatternText {
  import opened Options
  import opened PatternSyntax

  function WriteItem(item: Item): string {
    match item
    case Open => "("
    case Position => "()"
    case Close => ")"
    case Balance(x, y) => ['%', 'b', x, y]
    case Frontier(set_) => "%f" + set_
    case BackRef(digit) => ['%', digit]
    case Single(text, quant) => text + Suffix(quant)
  }

  function Suffix(quant: Quantifier): string {
    match quant
    case Once => ""
    case Optional => "?"
    case Greedy => "*"
    case GreedyPlus => "+"
    case Lazy => "-"
  }

  function Write(pt: Pattern): string {
    match pt
    case Done => ""
    case EndAnchor => "$"
    case Malformed => ""
    case Then(item, rest) => WriteItem(item) + Write(rest)
  }

  predicate WellFormed(pt: Pattern) {
    match pt
    case Malformed => false
    case Then(_, rest) => WellFormed(rest)
    case _ => true
  }

  // ---- from text to items and back ---------------------------------------------------

  /** Where the rest of a pattern starts, behind its first item. */
  lemma FirstItem(pat: CString, p: nat) returns (q: nat)
    requires p <= |pat| && Parse(pat, p).Then?
    ensures p < q <= |pat| && Parse(pat, p).rest == Parse(pat, q) && WriteItem(Parse(pat, p).item) == pat[p..q]
  {
    if pat[p] == '(' {
      q := if At(pat, p + 1) == ')' then p + 2 else p + 1;
    } else if pat[p] == ')' {
      q := p + 1;
    } else if pat[p] == '%' && At(pat, p + 1) == 'b' {
      q := p + 4;
    } else if pat[p] == '%' && At(pat, p + 1) == 'f' {
      q := ClassEnd(pat, p + 2).value;
      assert pat[p..q] == "%f" + pat[p + 2..q];
    } else if pat[p] == '%' && '0' <= At(pat, p + 1) <= '9' {
      q := p + 2;
    } else {
      assert Parse(pat, p) == ParseSingle(pat, p);
      q := FirstSingle(pat, p);
    }
  }

  lemma FirstSingle(pat: CString, p: nat) returns (q: nat)
    requires p < |pat| && ParseSingle(pat, p).Then?
    ensures p < q <= |pat| && ParseSingle(pat, p).rest == Parse(pat, q) && WriteItem(ParseSingle(pat, p).item) == pat[p..q]
  {
    hide Parse;
    var ep := ClassEnd(pat, p).value;
    var quant := QuantifierAt(At(pat, ep));
    q := if quant.Once? then ep else ep + 1;
    assert pat[p..q] == pat[p..ep] + Suffix(quant);
  }

  /** Every pattern text without a malformed item is what its items are written as. */
  lemma {:induction false} TextOfItems(pat: CString, p: nat)
    requires p <= |pat| && WellFormed(Parse(pat, p))
    ensures Write(Parse(pat, p)) == pat[p..]
    decreases |pat| - p
  {
    if Parse(pat, p).Then? {
      hide Parse, ValidPattern, WriteItem;
      var q := FirstItem(pat, p);
      TextOfItems(pat, q);
      assert pat[p..] == pat[p..q] + pat[q..];
    }
  }

  // ---- from items to text and back ---------------------------------------------------

  function Shift(r: Option<nat>, n: nat): Option<nat> {
    if r.None? then None else Some(r.value + n)
  }

  /** `x` is what stands in `pat` from `n` on. */
  predicate StandsAt(pat: string, n: nat, x: string) {
    n + |x| == |pat| && forall i :: 0 <= i < |x| ==> x[i] == pat[n + i]
  }

  lemma CharShift(pat: string, n: nat, x: string, p: nat)
    requires StandsAt(pat, n, x) && p < |x|
    ensures n + |x| == |pat| && pat[n + p] == x[p]
  {
  }

  lemma AtShift(pat: string, n: nat, x: string, p: nat)
    requires StandsAt(pat, n, x) && p <= |x|
    ensures At(pat, n + p) == At(x, p)
  {
  }

  lemma {:induction false} SetEndShift(pat: CString, n: nat, x: CString, q: nat)
    requires StandsAt(pat, n, x) && q <= |x|
    ensures SetEnd(pat, n + q) == Shift(SetEnd(x, q), n)
    decreases |x| - q
  {
    if q < |x| {
      var next := if x[q] == '%' && q + 1 < |x| then q + 2 else q + 1;
      AtShift(pat, n, x, next);
      SetEndShift(pat, n, x, next);
    }
  }

  lemma ClassEndShift(pat: CString, n: nat, x: CString, p: nat)
    requires StandsAt(pat, n, x) && p < |x|
    ensures ClassEnd(pat, n + p) == Shift(ClassEnd(x, p), n)
  {
    hide SetEnd;
    AtShift(pat, n, x, p + 1);
    SetEndShift(pat, n, x, p + 1);
    if p + 2 <= |x| {
      SetEndShift(pat, n, x, p + 2);
    }
  }

  lemma SliceShift(pat: string, n: nat, x: string, p: nat, q: nat)
    requires StandsAt(pat, n, x) && p <= q <= |x|
    ensures pat[n + p..n + q] == x[p..q]
  {
  }

  lemma {:induction false} SingleShift(pat: CString, n: nat, x: CString, p: nat)
    requires StandsAt(pat, n, x) && p < |x|
    ensures ParseSingle(pat, n + p) == ParseSingle(x, p)
    decreases |x| - p, 0
  {
    hide Parse, ClassEnd;
    ClassEndShift(pat, n, x, p);
    var end := ClassEnd(x, p);
    if end.Some? {
      AtShift(pat, n, x, end.value);
      SliceShift(pat, n, x, p, end.value);
      var quant := QuantifierAt(At(x, end.value));
      ParseShift(pat, n, x, if quant.Once? then end.value else end.value + 1);
    }
  }

  lemma ParseFrontier(pat: CString, p: nat)
    requires p + 1 < |pat| && pat[p] == '%' && pat[p + 1] == 'f'
    ensures
      var end := if At(pat, p + 2) == '[' then ClassEnd(pat, p + 2) else None;
      Parse(pat, p) == if end.None? then Malformed else Then(Frontier(pat[p + 2..end.value]), Parse(pat, end.value))
  {
    hide ClassEnd, ParseSingle;
  }

  lemma FrontierShift(pat: CString, n: nat, x: CString, p: nat)
    requires StandsAt(pat, n, x) && p + 1 < |x| && x[p] == '%' && x[p + 1] == 'f'
    requires
      var end := if At(x, p + 2) == '[' then ClassEnd(x, p + 2) else None;
      end.Some? ==> Parse(pat, n + end.value) == Parse(x, end.value)
    ensures Parse(pat, n + p) == Parse(x, p)
  {
    hide Parse, ClassEnd, SetEnd;
    AtShift(pat, n, x, p + 2);
    ParseFrontier(x, p);
    ParseFrontier(pat, n + p);
    if At(x, p + 2) == '[' {
      ClassEndShift(pat, n, x, p + 2);
      var end := ClassEnd(x, p + 2);
      if end.Some? {
        SliceShift(pat, n, x, p + 2, end.value);
      }
    }
  }

  /** How the reading of a pattern starts, for each kind of item without a set. */
  lemma ParseStart(pat: CString, p: nat)
    requires p < |pat|
    ensures
      var c, d := pat[p], At(pat, p + 1);
      if c == '(' then Parse(pat, p) == if d == ')' then Then(Position, Parse(pat, p + 2)) else Then(Open, Parse(pat, p + 1))
      else if c == ')' then Parse(pat, p) == Then(Close, Parse(pat, p + 1))
      else if c == '$' && p + 1 == |pat| then Parse(pat, p) == EndAnchor
      else if c == '%' && d == 'b' then
        Parse(pat, p) == if p + 3 >= |pat| then Malformed else Then(Balance(pat[p + 2], pat[p + 3]), Parse(pat, p + 4))
      else if c == '%' && '0' <= d <= '9' then Parse(pat, p) == Then(BackRef(d), Parse(pat, p + 2))
      else !(c == '%' && d == 'f') ==> Parse(pat, p) == ParseSingle(pat, p)
  {
    hide ClassEnd, ParseSingle;
  }

  /** What a text means as a pattern does not depend on what stands before it. */
  lemma {:induction false} ParseShift(pat: CString, n: nat, x: CString, p: nat)
    requires StandsAt(pat, n, x) && p <= |x|
    ensures Parse(pat, n + p) == Parse(x, p)
    decreases |x| - p, 1
  {
    if p < |x| {
      hide ClassEnd, ParseSingle, Parse, ValidPattern, StandsAt, At;
      var d := At(x, p + 1);
      CharShift(pat, n, x, p);
      AtShift(pat, n, x, p + 1);
      ParseStart(x, p);
      ParseStart(pat, n + p);
      if x[p] == '(' {
        ParseShift(pat, n, x, if d == ')' then p + 2 else p + 1);
      } else if x[p] == ')' {
        ParseShift(pat, n, x, p + 1);
      } else if x[p] == '%' && d == 'b' {
        if p + 3 < |x| {
          CharShift(pat, n, x, p + 2);
          CharShift(pat, n, x, p + 3);
          ParseShift(pat, n, x, p + 4);
        }
      } else if x[p] == '%' && d == 'f' {
        var end := if At(x, p + 2) == '[' then ClassEnd(x, p + 2) else None;
        if end.Some? {
          ParseShift(pat, n, x, end.value);
        }
        FrontierShift(pat, n, x, p);
      } else if x[p] == '%' && '0' <= d <= '9' {
        ParseShift(pat, n, x, p + 2);
      } else if !(x[p] == '$' && p + 1 == |x|) {
        SingleShift(pat, n, x, p);
      }
    }
  }

  /** The text of a set, complete in itself. */
  predicate SetText(text: string) {
    |text| > 0 && text[0] == '[' && '\0' !in text && ClassEnd(text, 0) == Some(|text|)
  }

  /** The text of one single-character item. */
  predicate SingleText(text: string) {
    || (|text| == 1 && text[0] != '(' && text[0] != ')' && text[0] != '%' && text[0] != '[')
    || (|text| == 2 && text[0] == '%' && text[1] != 'b' && text[1] != 'f' && !('0' <= text[1] <= '9'))
    || SetText(text)
  }

  /** Item `item`, written in front of `after`, is read back as itself. */
  predicate Distinct(item: Item, after: string) {
    match item
    case Open => !(")" <= after)
    case Frontier(set_) => SetText(set_)
    case BackRef(digit) => '0' <= digit <= '9'
    case Single(text, quant) =>
      SingleText(text)
      && (quant.Once? ==> after == "" || QuantifierAt(after[0]).Once?)
      && !(text == "$" && quant.Once? && after == "")
    case _ => true
  }

  predicate Readable(pt: Pattern) {
    match pt
    case Malformed => false
    case Then(item, rest) => Distinct(item, Write(rest)) && Readable(rest)
    case _ => true
  }

  lemma {:induction false} SetEndStays(pat: CString, text: CString, q: nat)
    requires text <= pat && q <= |text| && SetEnd(text, q).Some?
    ensures SetEnd(pat, q) == SetEnd(text, q)
    decreases |text| - q
  {
    var next := if text[q] == '%' && q + 1 < |text| then q + 2 else q + 1;
    assert pat[q] == text[q];
    if At(text, next) != ']' {
      SetEndStays(pat, text, next);
    }
    assert next < |text| && At(pat, next) == At(text, next);
  }

  /** A set ends where it ends alone, whatever follows. */
  lemma ClassEndStays(pat: CString, text: string)
    requires text <= pat && SetText(text)
    ensures ClassEnd(pat, 0) == Some(|text|)
  {
    hide SetEnd;
    var q := if At(text, 1) == '^' then 2 else 1;
    assert SetEnd(text, q).Some?;
    assert At(pat, 1) == At(text, 1) && pat[0] == text[0];
    SetEndStays(pat, text, q);
  }

  lemma ReadSingle(text: string, quant: Quantifier, after: string)
    requires Distinct(Single(text, quant), after) && '\0' !in WriteItem(Single(text, quant)) + after
    ensures
      var pat := WriteItem(Single(text, quant)) + after;
      Parse(pat, 0) == Then(Single(text, quant), Parse(pat, |WriteItem(Single(text, quant))|))
  {
    var pat := WriteItem(Single(text, quant)) + after;
    var tail := Suffix(quant) + after;
    hide SetEnd, Parse, ValidPattern;
    assert pat == text + tail;
    NulFree(text, tail);
    assert pat[0] == text[0] && pat[0..|text|] == text && (|text| > 1 ==> pat[1] == text[1]);
    assert At(pat, |text|) == if tail == "" then '\0' else tail[0];
    assert ClassEnd(pat, 0) == Some(|text|) by {
      if SetText(text) {
        ClassEndStays(pat, text);
      }
    }
    assert QuantifierAt(At(pat, |text|)) == quant;
    ParseOther(pat);
  }

  lemma ParseOther(pat: CString)
    requires |pat| > 0 && pat[0] != '(' && pat[0] != ')' && (pat[0] == '$' ==> |pat| > 1)
    requires pat[0] == '%' ==> |pat| > 1 && pat[1] != 'b' && pat[1] != 'f' && !('0' <= pat[1] <= '9')
    ensures Parse(pat, 0) == ParseSingle(pat, 0)
  {
    hide Parse, ParseSingle;
    ParseStart(pat, 0);
  }

  lemma ReadFrontier(set_: string, after: string)
    requires SetText(set_) && '\0' !in "%f" + set_ + after
    ensures
      var pat := "%f" + set_ + after;
      Parse(pat, 0) == Then(Frontier(set_), Parse(pat, |set_| + 2))
  {
    hide ClassEnd, Parse, SetEnd, ValidPattern;
    var pat, rest := "%f" + set_ + after, set_ + after;
    NulFree("%f", set_);
    NulFree("%f" + set_, after);
    NulFree(set_, after);
    assert pat == "%f" + rest && StandsAt(pat, 2, rest);
    hide StandsAt;
    ClassEndStays(rest, set_);
    ClassEndShift(pat, 2, rest, 0);
    SliceShift(pat, 2, rest, 0, |set_|);
    assert rest[0..|set_|] == set_;
    ReadFrontierAt(pat, set_);
  }

  lemma ReadFrontierAt(pat: CString, set_: string)
    requires |set_| > 0 && set_[0] == '[' && 2 + |set_| <= |pat| && pat[0] == '%' && pat[1] == 'f'
    requires pat[2..2 + |set_|] == set_ && ClassEnd(pat, 2) == Some(2 + |set_|)
    ensures Parse(pat, 0) == Then(Frontier(set_), Parse(pat, |set_| + 2))
  {
    hide ClassEnd, Parse;
    assert pat[2] == pat[2..2 + |set_|][0];
    ParseFrontier(pat, 0);
  }

  lemma NulFree(a: string, b: string)
    ensures '\0' !in a + b <==> '\0' !in a && '\0' !in b
  {
  }

  /** The first item of a written pattern is the one written first. */
  lemma ReadItem(item: Item, after: string)
    requires Distinct(item, after) && '\0' !in WriteItem(item) + after
    ensures var pat := WriteItem(item) + after; Parse(pat, 0) == Then(item, Parse(pat, |WriteItem(item)|))
  {
    var pat := WriteItem(item) + after;
    if item.Single? {
      ReadSingle(item.text, item.quant, after);
    } else if item.Frontier? {
      ReadFrontier(item.set_, after);
    } else {
      hide ClassEnd, ParseSingle;
      assert forall i :: 0 <= i < |WriteItem(item)| ==> pat[i] == WriteItem(item)[i];
      if item.Open? {
        assert after != "" ==> pat[1] == after[0];
        assert after != "" && after[0] == ')' ==> ")" <= after;
      }
    }
  }

  /** Every readable item sequence is read back from its text. */
  lemma {:induction false} ItemsOfText(pt: Pattern)
    requires Readable(pt) && '\0' !in Write(pt)
    ensures Parse(Write(pt), 0) == pt
    decreases pt
  {
    if pt.Then? {
      var first, after := WriteItem(pt.item), Write(pt.rest);
      hide Parse, Distinct, WriteItem, ValidPattern;
      ItemsOfText(pt.rest);
      ReadItem(pt.item, after);
      NulFree(first, after);
      assert StandsAt(first + after, |first|, after);
      hide StandsAt;
      ParseShift(first + after, |first|, after, 0);
    }
  }

  // ---- texts that are no pattern -----------------------------------------------------------

  lemma {:induction false} NoBracketNoEnd(pat: CString, q: nat)
    requires q <= |pat| && ']' !in pat[q..]
    ensures SetEnd(pat, q).None?
    decreases |pat| - q
  {
    if q < |pat| {
      var next := if pat[q] == '%' && q + 1 < |pat| then q + 2 else q + 1;
      assert pat[next..] == pat[q..][next - q..];
      assert next < |pat| ==> pat[next] in pat[next..];
      NoBracketNoEnd(pat, next);
    }
  }

  /** A lone escape is malformed. */
  lemma LoneEscape()
    ensures Parse("%", 0) == Malformed
  {
  }

  /** So is a set without its bracket, */
  lemma UnclosedSet(x: string)
    requires ']' !in x && '\0' !in "[" + x
    ensures Parse("[" + x, 0) == Malformed
  {
    hide SetEnd, Parse;
    var pat := "[" + x;
    assert pat[0] == '[';
    var q := if At(pat, 1) == '^' then 2 else 1;
    assert pat[q..] == x[q - 1..];
    NoBracketNoEnd(pat, q);
    ParseOther(pat);
  }

  /** `%b` without two characters, */
  lemma BalanceAlone(x: string)
    requires |x| < 2 && '\0' !in "%b" + x
    ensures Parse("%b" + x, 0) == Malformed
  {
    hide ClassEnd, ParseSingle;
    var pat := "%b" + x;
    assert pat[0] == '%' && pat[1] == 'b';
  }

  /** and `%f` without a set. */
  lemma FrontierAlone(x: string)
    requires !("[" <= x) && '\0' !in "%f" + x
    ensures Parse("%f" + x, 0) == Malformed
  {
    hide ClassEnd, Parse;
    var pat := "%f" + x;
    assert pat[0] == '%' && pat[1] == 'f' && At(pat, 2) == (if x == "" then '\0' else x[0]);
    assert x != "" && x[0] == '[' ==> "[" <= x;
    ParseFrontier(pat, 0);
  }
}
