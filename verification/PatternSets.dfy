/**
 * What character classes and bracket sets accept, stated on the entries a set is
 * written with and not on the scan that reads it.
 */
module PatternSets {
  import opened Options
  import opened PatternSyntax

  // ---- classes ------------------------------------------------------------------

  /** The `ctype.h` test a class letter stands for. */
  function ClassTest(ct: CharTypes, letter: char): Option<char -> bool> {
    match letter
    case 'a' => Some(ct.isAlpha)
    case 'c' => Some(ct.isCntrl)
    case 'd' => Some(ct.isDigit)
    case 'g' => Some(ct.isGraph)
    case 'l' => Some(ct.isLower)
    case 'p' => Some(ct.isPunct)
    case 's' => Some(ct.isSpace)
    case 'u' => Some(ct.isUpper)
    case 'w' => Some(ct.isAlnum)
    case 'x' => Some(ct.isXDigit)
    case _ => None
  }

  /** `%k`: a class letter tests, in the other case it tests for the opposite, and anything else stands for itself. */
  lemma ClassAccepts(ct: CharTypes, c: char, k: char)
    ensures
      match ClassTest(ct, ct.toLower(k))
      case None => MatchClass(ct, c, k) <==> c == k
      case Some(test) => MatchClass(ct, c, k) <==> (test(c) <==> ct.isLower(k))
  {
    var l := ct.toLower(k);
    assert l in "acdglpsuwx" <==>
      l == 'a' || l == 'c' || l == 'd' || l == 'g' || l == 'l' || l == 'p' || l == 's' || l == 'u' || l == 'w' || l == 'x';
  }

  // ---- sets -----------------------------------------------------------------------

  datatype Entry = Member(c: char) | Range(lo: char, hi: char) | Class(k: char)

  function Show(e: Entry): (s: string)
    ensures |s| > 0
  {
    match e
    case Member(c) => [c]
    case Range(lo, hi) => [lo, '-', hi]
    case Class(k) => ['%', k]
  }

  function ShowAll(es: seq<Entry>): string {
    if es == [] then "" else Show(es[0]) + ShowAll(es[1..])
  }

  predicate Accepts(ct: CharTypes, c: char, e: Entry) {
    match e
    case Member(m) => c == m
    case Range(lo, hi) => lo <= c <= hi
    case Class(k) => MatchClass(ct, c, k)
  }

  ghost predicate SomeAccepts(ct: CharTypes, c: char, es: seq<Entry>) {
    exists i :: 0 <= i < |es| && Accepts(ct, c, es[i])
  }

  /** The entries read as they are written: no '%' for itself, and a '-' after a single character only at the very end. */
  predicate Plain(es: seq<Entry>) {
    es != [] ==>
      && (es[0].Member? ==> es[0].c != '%' && (|es| > 1 && Show(es[1])[0] == '-' ==> es[1..] == [Member('-')]))
      && (es[0].Range? ==> es[0].lo != '%')
      && Plain(es[1..])
  }

  lemma {:induction false} ScanAccepts(ct: CharTypes, c: char, before: string, es: seq<Entry>)
    requires Plain(es)
    ensures InSet(ct, c, before + ShowAll(es) + "]", |before|) <==> SomeAccepts(ct, c, es)
    decreases |es|
  {
    var set_ := before + ShowAll(es) + "]";
    if es != [] {
      var head, tail := Show(es[0]), ShowAll(es[1..]);
      assert set_ == before + head + tail + "]";
      ScanAccepts(ct, c, before + head, es[1..]);
      assert SomeAccepts(ct, c, es) <==> Accepts(ct, c, es[0]) || SomeAccepts(ct, c, es[1..]) by {
        HeadOrTail(ct, c, es);
      }
      assert set_[|before|] == head[0];
      match es[0] {
        case Member(m) => AfterMember(before, m, es);
        case Range(lo, hi) => assert set_[|before| + 1] == '-' && set_[|before| + 2] == hi;
        case Class(k) => assert set_[|before| + 1] == k;
      }
    }
  }

  /** A single character is not taken for the start of a range. */
  lemma AfterMember(before: string, m: char, es: seq<Entry>)
    requires Plain(es) && es != [] && es[0] == Member(m)
    ensures
      var set_ := before + ShowAll(es) + "]";
      set_[|before| + 1] == '-' ==> |before| + 2 == |set_| - 1
  {
    var set_ := before + ShowAll(es) + "]";
    assert set_ == before + [m] + ShowAll(es[1..]) + "]";
    if |es| > 1 {
      assert set_[|before| + 1] == Show(es[1])[0];
      assert es[1..] == [Member('-')] ==> ShowAll(es[1..]) == "-" + "";
    }
  }

  lemma HeadOrTail(ct: CharTypes, c: char, es: seq<Entry>)
    requires es != []
    ensures SomeAccepts(ct, c, es) <==> Accepts(ct, c, es[0]) || SomeAccepts(ct, c, es[1..])
  {
    if SomeAccepts(ct, c, es) && !Accepts(ct, c, es[0]) {
      var i :| 0 <= i < |es| && Accepts(ct, c, es[i]);
      assert es[1..][i - 1] == es[i];
    }
    if SomeAccepts(ct, c, es[1..]) {
      var i :| 0 <= i < |es[1..]| && Accepts(ct, c, es[1..][i]);
      assert es[i + 1] == es[1..][i];
    }
  }

  /** A set accepts exactly what one of its entries accepts, unless it starts with '^'. */
  lemma SetAccepts(ct: CharTypes, c: char, es: seq<Entry>)
    requires Plain(es) && !("^" <= ShowAll(es))
    ensures MatchBracketClass(ct, c, "[" + ShowAll(es) + "]") <==> SomeAccepts(ct, c, es)
  {
    ScanAccepts(ct, c, "[", es);
    assert ShowAll(es) != "" ==> ("[" + ShowAll(es) + "]")[1] == ShowAll(es)[0];
  }

  /** With a leading '^', exactly what none of them accepts. */
  lemma NegatedSetAccepts(ct: CharTypes, c: char, es: seq<Entry>)
    requires Plain(es)
    ensures MatchBracketClass(ct, c, "[^" + ShowAll(es) + "]") <==> !SomeAccepts(ct, c, es)
  {
    ScanAccepts(ct, c, "[^", es);
  }

  function Members(x: string): seq<Entry> {
    seq(|x|, i requires 0 <= i < |x| => Member(x[i]))
  }

  lemma {:induction false} MembersArePlain(x: string)
    requires '%' !in x && '-' !in x
    ensures Plain(Members(x)) && ShowAll(Members(x)) == x
    decreases |x|
  {
    if x != "" {
      MembersArePlain(x[1..]);
      assert Members(x)[1..] == Members(x[1..]);
      assert x == [x[0]] + x[1..];
    }
  }

  /** `[abc]` accepts its characters, `[^abc]` all others. */
  lemma CharacterSet(ct: CharTypes, c: char, x: string)
    requires '%' !in x && '-' !in x
    ensures !("^" <= x) ==> (MatchBracketClass(ct, c, "[" + x + "]") <==> c in x)
    ensures MatchBracketClass(ct, c, "[^" + x + "]") <==> c !in x
  {
    MembersArePlain(x);
    var es := Members(x);
    if !("^" <= x) {
      SetAccepts(ct, c, es);
    }
    NegatedSetAccepts(ct, c, es);
    if c in x {
      var i :| 0 <= i < |x| && x[i] == c;
      assert Accepts(ct, c, es[i]);
    }
  }

  /** `[a-b]` accepts the characters from a to b. */
  lemma RangeSet(ct: CharTypes, c: char, lo: char, hi: char)
    requires lo != '%' && lo != '^'
    ensures MatchBracketClass(ct, c, ['[', lo, '-', hi, ']']) <==> lo <= c <= hi
  {
    var es := [Range(lo, hi)];
    assert es[1..] == [] && ShowAll(es) == [lo, '-', hi];
    assert ShowAll(es)[0] != "^"[0];
    SetAccepts(ct, c, es);
    assert "[" + ShowAll(es) + "]" == ['[', lo, '-', hi, ']'];
    assert es[0] == Range(lo, hi);
  }

  /** `[%k]` accepts what the item `%k` accepts. */
  lemma ClassSet(ct: CharTypes, c: char, k: char)
    ensures MatchBracketClass(ct, c, ['[', '%', k, ']']) <==> MatchItem(ct, c, ['%', k])
  {
    var es := [Class(k)];
    assert es[1..] == [] && ShowAll(es) == ['%', k];
    assert ShowAll(es)[0] != "^"[0];
    SetAccepts(ct, c, es);
    assert "[" + ShowAll(es) + "]" == ['[', '%', k, ']'];
    assert es[0] == Class(k);
  }

  // ---- items ----------------------------------------------------------------------------

  /** A dot takes any character, an escape its class, a set its entries, and every other character itself. */
  lemma ItemAccepts(ct: CharTypes, src: string, s: nat, k: char)
    ensures SingleMatch(ct, src, s, ".") <==> s < |src|
    ensures SingleMatch(ct, src, s, ['%', k]) <==> s < |src| && MatchClass(ct, src[s], k)
    ensures k != '.' && k != '%' && k != '[' ==> (SingleMatch(ct, src, s, [k]) <==> s < |src| && src[s] == k)
  {
  }

  lemma SetItemAccepts(ct: CharTypes, src: string, s: nat, es: seq<Entry>)
    requires Plain(es)
    ensures !("^" <= ShowAll(es)) ==>
              (SingleMatch(ct, src, s, "[" + ShowAll(es) + "]") <==> s < |src| && SomeAccepts(ct, src[s], es))
    ensures SingleMatch(ct, src, s, "[^" + ShowAll(es) + "]") <==> s < |src| && !SomeAccepts(ct, src[s], es)
  {
    if s < |src| {
      if !("^" <= ShowAll(es)) {
        SetAccepts(ct, src[s], es);
      }
      NegatedSetAccepts(ct, src[s], es);
    }
  }

  // ---- where a set ends --------------------------------------------------------------------

  /** Entries a scan for the closing bracket cannot stop in: ']' only escaped. */
  predicate Closable(es: seq<Entry>) {
    forall e <- es ::
      && (e.Member? ==> e.c != ']' && e.c != '%')
      && (e.Range? ==> e.lo != ']' && e.lo != '%' && e.hi != ']' && e.hi != '%')
  }

  /** The text of the entries followed by ']' stands at `q`. */
  predicate WrittenAt(pat: string, q: nat, es: seq<Entry>) {
    q + |ShowAll(es)| < |pat| && pat[q..q + |ShowAll(es)|] == ShowAll(es) && pat[q + |ShowAll(es)|] == ']'
  }

  lemma WrittenStep(pat: string, q: nat, es: seq<Entry>)
    requires es != [] && WrittenAt(pat, q, es)
    ensures WrittenAt(pat, q + |Show(es[0])|, es[1..])
    ensures q + |Show(es[0])| < |pat| && pat[q..q + |Show(es[0])|] == Show(es[0])
    ensures At(pat, q + |Show(es[0])|) == if |es| == 1 then ']' else Show(es[1])[0]
  {
    var head, tail := Show(es[0]), ShowAll(es[1..]);
    var text := pat[q..q + |ShowAll(es)|];
    assert text == head + tail;
    if |es| > 1 {
      assert tail == Show(es[1]) + ShowAll(es[1..][1..]);
    }
    hide ShowAll, Show;
    assert pat[q..q + |head|] == text[..|head|] && pat[q + |head|..q + |head| + |tail|] == text[|head|..];
    if |es| > 1 {
      assert tail[0] == text[|head|] == pat[q + |head|];
    }
  }

  /** The scan passes over an entry as a whole. */
  lemma ScanPasses(pat: CString, q: nat, e: Entry)
    requires Closable([e]) && q + |Show(e)| < |pat| && forall i :: 0 <= i < |Show(e)| ==> pat[q + i] == Show(e)[i]
    ensures var next := q + |Show(e)|; SetEnd(pat, q) == if pat[next] == ']' then Some(next + 1) else SetEnd(pat, next)
  {
    assert e in [e] && pat[q + 0] == Show(e)[0];
    if e.Range? {
      assert pat[q + 1] == Show(e)[1] && pat[q + 2] == Show(e)[2];
      assert SetEnd(pat, q) == SetEnd(pat, q + 1);
      assert SetEnd(pat, q + 1) == SetEnd(pat, q + 2);
    }
  }

  /** The scan of a set finds the bracket that closes it. */
  lemma {:induction false} SetEndsAtBracket(pat: CString, q: nat, es: seq<Entry>)
    requires es != [] && Closable(es) && WrittenAt(pat, q, es)
    ensures SetEnd(pat, q) == Some(q + |ShowAll(es)| + 1)
    decreases |es|
  {
    hide SetEnd;
    var e, n := es[0], |Show(es[0])|;
    WrittenStep(pat, q, es);
    var text := pat[q..q + n];
    assert forall i :: 0 <= i < n ==> text[i] == pat[q + i];
    assert e in es && |ShowAll(es)| == n + |ShowAll(es[1..])|;
    ScanPasses(pat, q, e);
    if |es| > 1 {
      assert es[1] in es && Show(es[1])[0] != ']';
      SetEndsAtBracket(pat, q + n, es[1..]);
    }
  }

  /** A set, negated or not, is one item, from its bracket to the one that closes it. */
  lemma SetIsOneItem(pat: CString, p: nat, es: seq<Entry>)
    requires es != [] && Closable(es) && p < |pat| && pat[p] == '['
    ensures WrittenAt(pat, p + 1, es) && pat[p + 1] != '^' ==> ClassEnd(pat, p) == Some(p + |ShowAll(es)| + 2)
    ensures p + 1 < |pat| && pat[p + 1] == '^' && WrittenAt(pat, p + 2, es) ==> ClassEnd(pat, p) == Some(p + |ShowAll(es)| + 3)
  {
    hide ShowAll, SetEnd;
    if WrittenAt(pat, p + 1, es) {
      SetEndsAtBracket(pat, p + 1, es);
    }
    if WrittenAt(pat, p + 2, es) {
      SetEndsAtBracket(pat, p + 2, es);
    }
  }
}
