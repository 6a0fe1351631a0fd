/**
 * The surface syntax of Lua patterns as `patterns.c` reads it: where an item
 * ends, which characters a single-character item accepts, and the sequence of
 * items a pattern text stands for.
 */
module PatternSyntax {
  import opened Options

  /** C strings hold no NUL; the terminator is read as the character after the last. */
  type CString = s: string | '\0' !in s

  /** The `ctype.h` tables of the running locale, taken as arbitrary predicates. */
  datatype CharTypes = CharTypes(
    isAlpha: char -> bool, isCntrl: char -> bool, isDigit: char -> bool,
    isGraph: char -> bool, isLower: char -> bool, isPunct: char -> bool,
    isSpace: char -> bool, isUpper: char -> bool, isAlnum: char -> bool,
    isXDigit: char -> bool, toLower: char -> char)

  /** `s[i]` with the terminator readable; reading past it is excluded. */
  function At(s: string, i: nat): char
    requires i <= |s|
  {
    if i < |s| then s[i] else '\0'
  }

  // ---- single characters ------------------------------------------------

  predicate MatchClass(ct: CharTypes, c: char, cl: char) {
    var l := ct.toLower(cl);
    if l !in "acdglpsuwx" then cl == c
    else
      var res :=
        if l == 'a' then ct.isAlpha(c)
        else if l == 'c' then ct.isCntrl(c)
        else if l == 'd' then ct.isDigit(c)
        else if l == 'g' then ct.isGraph(c)
        else if l == 'l' then ct.isLower(c)
        else if l == 'p' then ct.isPunct(c)
        else if l == 's' then ct.isSpace(c)
        else if l == 'u' then ct.isUpper(c)
        else if l == 'w' then ct.isAlnum(c)
        else ct.isXDigit(c);
      if ct.isLower(cl) then res else !res
  }

  /** Whether the scan of a bracket set, from offset `i`, meets an entry accepting `c`. */
  predicate InSet(ct: CharTypes, c: char, set_: string, i: nat)
    decreases |set_| - i
  {
    var ec := |set_| - 1;
    if i >= ec then false
    else if set_[i] == '%' then
      MatchClass(ct, c, set_[i + 1]) || InSet(ct, c, set_, i + 2)
    else if set_[i + 1] == '-' && i + 2 < ec then
      set_[i] <= c <= set_[i + 2] || InSet(ct, c, set_, i + 3)
    else
      set_[i] == c || InSet(ct, c, set_, i + 1)
  }

  /** `set_` is the whole text of a set, from '[' to its closing ']'. */
  predicate MatchBracketClass(ct: CharTypes, c: char, set_: string)
    requires |set_| >= 2
  {
    var negated := set_[1] == '^';
    InSet(ct, c, set_, if negated then 2 else 1) != negated
  }

  /** `item` is the text of one single-character item, without its suffix. */
  predicate MatchItem(ct: CharTypes, c: char, item: string)
    requires ItemText(item)
  {
    if item[0] == '.' then true
    else if item[0] == '%' then MatchClass(ct, c, item[1])
    else if item[0] == '[' then MatchBracketClass(ct, c, item)
    else item[0] == c
  }

  predicate ItemText(item: string) {
    |item| >= 1 && (item[0] == '%' || item[0] == '[' ==> |item| >= 2)
  }

  /** `singlematch`: the subject has a character at `s` and the item accepts it. */
  predicate SingleMatch(ct: CharTypes, src: string, s: nat, item: string)
    requires ItemText(item)
  {
    s < |src| && MatchItem(ct, src[s], item)
  }

  // ---- items ------------------------------------------------------------

  /** `classend`: the offset just after the item at `p`; None when the item is malformed. */
  function ClassEnd(pat: CString, p: nat): (r: Option<nat>)
    requires p < |pat|
    ensures r.Some? ==> p < r.value <= |pat| && ItemText(pat[p..r.value])
  {
    if pat[p] == '%' then
      if p + 1 == |pat| then None else Some(p + 2)
    else if pat[p] == '[' then
      SetEnd(pat, if At(pat, p + 1) == '^' then p + 2 else p + 1)
    else
      Some(p + 1)
  }

  /** The do-while loop of `classend`: the character at `q` is consumed before ']' is looked for. */
  function SetEnd(pat: CString, q: nat): (r: Option<nat>)
    requires q <= |pat|
    ensures r.Some? ==> q + 1 < r.value <= |pat| && pat[r.value - 1] == ']'
    decreases |pat| - q
  {
    if q == |pat| then None
    else
      var next := if pat[q] == '%' && q + 1 < |pat| then q + 2 else q + 1;
      if At(pat, next) == ']' then Some(next + 1) else SetEnd(pat, next)
  }

  // ---- patterns as sequences of items -------------------------------------

  /** How often a single-character item may repeat, and which count is tried first. */
  datatype Quantifier = Once | Optional | Greedy | GreedyPlus | Lazy

  datatype Item =
    | Open                                    // (
    | Position                                // ()
    | Close                                   // )
    | Balance(open: char, close: char)        // %bxy
    | Frontier(set_: string)                  // %f[set]
    | BackRef(digit: char)                    // %0 .. %9
    | Single(text: string, quant: Quantifier)

  datatype Pattern =
    | Done
    | EndAnchor                               // a final $
    | Malformed
    | Then(item: Item, rest: Pattern)

  predicate ValidItem(item: Item) {
    match item
    case Frontier(set_) => |set_| >= 2
    case Single(text, _) => ItemText(text)
    case _ => true
  }

  ghost predicate ValidPattern(pt: Pattern) {
    pt.Then? ==> ValidItem(pt.item) && ValidPattern(pt.rest)
  }

  function QuantifierAt(c: char): Quantifier {
    if c == '?' then Optional
    else if c == '*' then Greedy
    else if c == '+' then GreedyPlus
    else if c == '-' then Lazy
    else Once
  }

  /** The item sequence written at `pat[p..]`. */
  function Parse(pat: CString, p: nat): (r: Pattern)
    requires p <= |pat|
    ensures ValidPattern(r)
    decreases |pat| - p, 1
  {
    if p == |pat| then Done
    else if pat[p] == '(' then
      if At(pat, p + 1) == ')' then Then(Position, Parse(pat, p + 2))
      else Then(Open, Parse(pat, p + 1))
    else if pat[p] == ')' then Then(Close, Parse(pat, p + 1))
    else if pat[p] == '$' && p + 1 == |pat| then EndAnchor
    else if pat[p] == '%' && At(pat, p + 1) == 'b' then
      if p + 3 >= |pat| then Malformed
      else Then(Balance(pat[p + 2], pat[p + 3]), Parse(pat, p + 4))
    else if pat[p] == '%' && At(pat, p + 1) == 'f' then
      if At(pat, p + 2) != '[' then Malformed
      else
        match ClassEnd(pat, p + 2)
        case None => Malformed
        case Some(ep) => Then(Frontier(pat[p + 2..ep]), Parse(pat, ep))
    else if pat[p] == '%' && '0' <= At(pat, p + 1) <= '9' then
      Then(BackRef(pat[p + 1]), Parse(pat, p + 2))
    else ParseSingle(pat, p)
  }

  function ParseSingle(pat: CString, p: nat): (r: Pattern)
    requires p < |pat|
    ensures ValidPattern(r)
    decreases |pat| - p, 0
  {
    match ClassEnd(pat, p)
    case None => Malformed
    case Some(ep) =>
      var quant := QuantifierAt(At(pat, ep));
      Then(Single(pat[p..ep], quant), Parse(pat, if quant.Once? then ep else ep + 1))
  }
}
