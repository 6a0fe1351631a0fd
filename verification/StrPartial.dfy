/** `strpartial.c`: splitting a template into its parts, and printing the parts back. */
module StrPartial {
  import opened Options
  import opened Sequences
  import opened RuleModel

  const INT_MAX: int := 0x7fff_ffff
  const LONG_MAX: int := 0x7fff_ffff_ffff_ffff

  // ---- numbers -------------------------------------------------------------------

  predicate IsDigit(c: char) {
    '0' <= c <= '9'
  }

  predicate AllDigits(s: string) {
    forall c <- s :: IsDigit(c)
  }

  function Value(s: string): nat
    requires AllDigits(s)
  {
    if s == "" then 0
    else
      assert s[|s| - 1] in s;
      10 * Value(s[..|s| - 1]) + (s[|s| - 1] as int - '0' as int)
  }

  /** `(int) strtol(s)`: clamped to a long, then cut to 32 bits. */
  function ToInt(s: string): int
    requires AllDigits(s)
  {
    var v := if Value(s) > LONG_MAX then LONG_MAX else Value(s);
    var low := v % 0x1_0000_0000;
    if low > INT_MAX then low - 0x1_0000_0000 else low
  }

  /** A number is kept modulo 2^32, as an int; one that is too large for a long becomes -1. */
  lemma ToIntIs(s: string)
    requires AllDigits(s)
    ensures -INT_MAX - 1 <= ToInt(s) <= INT_MAX
    ensures Value(s) <= INT_MAX ==> ToInt(s) == Value(s)
    ensures Value(s) <= LONG_MAX ==> (Value(s) - ToInt(s)) % 0x1_0000_0000 == 0
    ensures Value(s) > LONG_MAX ==> ToInt(s) == -1
  {
  }

  function Decimal(n: nat): (s: string)
    ensures AllDigits(s) && |s| > 0
  {
    if n < 10 then [n as char + '0'] else Decimal(n / 10) + [(n % 10) as char + '0']
  }

  function PrintInt(n: int): string {
    if n < 0 then "-" + Decimal(-n) else Decimal(n)
  }

  /** A number as one would write it: no leading zeros, and it fits an int. */
  predicate Canonical(s: string) {
    |s| > 0 && AllDigits(s) && (|s| > 1 ==> s[0] != '0') && Value(s) <= INT_MAX
  }

  lemma {:induction false} ValueOfDecimal(n: nat)
    ensures Value(Decimal(n)) == n && (|Decimal(n)| > 1 ==> n >= 10 && Decimal(n)[0] != '0') && (n > 0 ==> Decimal(n)[0] != '0')
  {
    var s := Decimal(n);
    if n < 10 {
      assert s[..0] == "" && Value(s[..0]) == 0;
    } else {
      ValueOfDecimal(n / 10);
      assert s[..|s| - 1] == Decimal(n / 10);
    }
  }

  lemma {:induction false} ValueIsPositive(s: string)
    requires AllDigits(s) && |s| > 0 && s[0] != '0'
    ensures Value(s) > 0
    decreases |s|
  {
    assert s[|s| - 1] in s;
    if |s| > 1 {
      ValueIsPositive(s[..|s| - 1]);
    } else {
      assert s[..0] == "" && Value(s[..0]) == 0;
    }
  }

  lemma {:induction false} DecimalOfValue(s: string)
    requires |s| > 0 && AllDigits(s) && (|s| > 1 ==> s[0] != '0')
    ensures Decimal(Value(s)) == s
    decreases |s|
  {
    assert s[|s| - 1] in s;
    var front, last := s[..|s| - 1], s[|s| - 1] as int - '0' as int;
    if |s| == 1 {
      assert front == "" && Value(s) == last;
    } else {
      ValueIsPositive(front);
      DecimalOfValue(front);
      assert Value(s) == 10 * Value(front) + last && Value(s) / 10 == Value(front) && Value(s) % 10 == last;
      assert s == front + [s[|s| - 1]];
    }
  }

  /** A capture number prints as it was written exactly when it was written canonically. */
  lemma NumberRoundTripIff(s: string)
    requires |s| > 0 && AllDigits(s)
    ensures PrintInt(ToInt(s)) == s <==> Canonical(s)
  {
    var n := ToInt(s);
    if Canonical(s) {
      DecimalOfValue(s);
    } else if n >= 0 {
      ValueOfDecimal(n);
    } else {
      assert PrintInt(n)[0] == '-' && !IsDigit('-');
      assert s[0] in s;
    }
  }

  // ---- one placeholder ---------------------------------------------------------------

  /** `strpartial_from_format`; an empty name leaves the type at STR_INVALID. */
  function FromFormat(sym: string, isAlpha: char -> bool): Part {
    if sym == "" then Invalid
    else if IsDigit(sym[0]) then
      if AllDigits(sym) then Capture(ToInt(sym)) else Invalid
    else if |sym| == 1 && isAlpha(sym[0]) then
      if sym[0] == 's' then Source
      else if sym[0] == 'd' then DateTime
      else if sym[0] == 'm' then LogLine
      else if sym[0] == 't' then FractSecond
      else if sym[0] == 'T' then DateTimeFract
      else Invalid
    else if "env:" <= sym then Env(sym[4..])
    else Var(sym)
  }

  /** What stands between the braces of a printed part. */
  function NameOf(part: Part): string {
    match part
    case Invalid => ""
    case Verbatim(_) => ""
    case Var(name) => name
    case Env(name) => "env:" + name
    case Capture(number) => PrintInt(number)
    case DateTime => "d"
    case FractSecond => "t"
    case DateTimeFract => "T"
    case Source => "s"
    case LogLine => "m"
  }

  function Print(part: Part): string {
    if part.Verbatim? then part.text else "%{" + NameOf(part) + "}"
  }

  function PrintAll(parts: seq<Part>): string {
    if parts == [] then "" else Print(parts[0]) + PrintAll(parts[1..])
  }

  /** A name that is a number must be a canonical one. */
  predicate CanonicalName(sym: string) {
    |sym| > 0 && IsDigit(sym[0]) && AllDigits(sym) ==> Canonical(sym)
  }

  lemma NameRoundTripIff(sym: string, isAlpha: char -> bool)
    requires !FromFormat(sym, isAlpha).Invalid?
    ensures !FromFormat(sym, isAlpha).Verbatim?
    ensures NameOf(FromFormat(sym, isAlpha)) == sym <==> CanonicalName(sym)
  {
    if IsDigit(sym[0]) && AllDigits(sym) {
      NumberRoundTripIff(sym);
    } else if |sym| == 1 && isAlpha(sym[0]) {
      assert sym == [sym[0]];
    } else if "env:" <= sym {
      assert "env:" + sym[4..] == sym;
    }
  }

  lemma {:induction false} DecimalHasNoBrace(n: nat)
    ensures '}' !in Decimal(n)
  {
  }

  lemma NameHasNoBrace(sym: string, isAlpha: char -> bool)
    requires '}' !in sym && !FromFormat(sym, isAlpha).Invalid?
    ensures '}' !in NameOf(FromFormat(sym, isAlpha))
  {
    var part := FromFormat(sym, isAlpha);
    if part.Capture? {
      var n := part.number;
      DecimalHasNoBrace(if n < 0 then -n else n);
    }
  }

  // ---- splitting -----------------------------------------------------------------------

  /** `strstr(s, "%{")`. */
  function FindOpen(s: string): (r: Option<nat>)
    ensures r.Some? ==> r.value + 2 <= |s| && s[r.value] == '%' && s[r.value + 1] == '{'
    ensures forall j :: 0 <= j < (if r.Some? then r.value else |s| - 1) ==> s[j] != '%' || s[j + 1] != '{'
  {
    if |s| < 2 then None
    else if s[0] == '%' && s[1] == '{' then Some(0)
    else
      match FindOpen(s[1..])
      case None => None
      case Some(i) => Some(i + 1)
  }

  /** `strchr(s, '}')`. */
  function FindClose(s: string): (r: Option<nat>)
    ensures r.Some? ==> r.value < |s| && s[r.value] == '}' && '}' !in s[..r.value]
    ensures r.None? ==> '}' !in s
  {
    if s == "" then None
    else if s[0] == '}' then Some(0)
    else
      match FindClose(s[1..])
      case None => None
      case Some(i) => assert s[..i + 1] == [s[0]] + s[1..][..i]; Some(i + 1)
  }

  function Before(text: string): seq<Part> {
    if text == "" then [] else [Verbatim(text)]
  }

  datatype Cut = NoOpen | Unclosed | Placeholder(before: string, name: string, after: string)

  /** The first placeholder of a string, and what stands around it. */
  function FirstCut(s: string): (r: Cut)
    ensures r.Placeholder? ==> |r.after| < |s| && '}' !in r.name
  {
    match FindOpen(s)
    case None => NoOpen
    case Some(i) =>
      var inner := s[i + 2..];
      match FindClose(inner)
      case None => Unclosed
      case Some(e) => Placeholder(s[..i], inner[..e], inner[e + 1..])
  }

  lemma CutRejoins(s: string)
    requires FirstCut(s).Placeholder?
    ensures s == FirstCut(s).before + ("%{" + (FirstCut(s).name + "}" + FirstCut(s).after))
  {
    hide FindOpen, FindClose;
    var i := FindOpen(s).value;
    var inner := s[i + 2..];
    assert inner == FirstCut(s).name + "}" + FirstCut(s).after;
    assert s[i..] == "%{" + inner;
  }

  /** The loop of `strpartial_split`, from the rest of the string on; None is a syntax error. */
  function SplitRest(s: string, isAlpha: char -> bool): Option<seq<Part>>
    decreases |s|
  {
    if s == "" then Some([])
    else
      match FirstCut(s)
      case NoOpen => Some([Verbatim(s)])
      case Unclosed => None
      case Placeholder(before, name, after) =>
        var part := FromFormat(name, isAlpha);
        if part.Invalid? then None else Prepend(Before(before) + [part], SplitRest(after, isAlpha))
  }

  function Split(s: string, isAlpha: char -> bool): Option<seq<Part>> {
    if |s| < 4 then Some([Verbatim(s)]) else SplitRest(s, isAlpha)
  }

  /** `strpartial_split`. */
  method StrPartialSplit(sym: string, isAlpha: char -> bool) returns (parts: Option<seq<Part>>)
    ensures parts == Split(sym, isAlpha)
  {
    hide FromFormat, Before, SplitRest, FindOpen, FindClose;
    if |sym| < 4 {
      return Some([Verbatim(sym)]);
    }
    var list: seq<Part> := [];
    var left := 0;
    assert sym[0..] == sym;
    PrependNothing(SplitRest(sym, isAlpha));
    while left < |sym|
      invariant left <= |sym|
      invariant Split(sym, isAlpha) == Prepend(list, SplitRest(sym[left..], isAlpha))
    {
      var rest := sym[left..];
      SplitStep(list, rest, isAlpha);
      var start := FindOpen(rest);
      if start.None? {
        return Some(list + [Verbatim(rest)]);
      }
      var inner := rest[start.value + 2..];
      var end := FindClose(inner);
      if end.None? {
        return None;
      }
      var before := rest[..start.value];
      if |before| >= 1 {
        list := list + [Verbatim(before)];
      }
      var part := FromFormat(inner[..end.value], isAlpha);
      if part.Invalid? {
        return None;
      }
      list := list + [part];
      left := left + start.value + 2 + end.value + 1;
      assert sym[left..] == inner[end.value + 1..];
    }
    SplitStep(list, sym[left..], isAlpha);
    return Some(list);
  }

  function WithVerbatim(list: seq<Part>, text: string): seq<Part> {
    if |text| >= 1 then list + [Verbatim(text)] else list
  }

  /** One round of the loop, on a list of parts already split off. */
  lemma SplitStep(list: seq<Part>, s: string, isAlpha: char -> bool)
    ensures s == "" ==> Prepend(list, SplitRest(s, isAlpha)) == Some(list)
    ensures s != "" && FirstCut(s).NoOpen? ==> Prepend(list, SplitRest(s, isAlpha)) == Some(list + [Verbatim(s)])
    ensures FirstCut(s).Unclosed? ==> SplitRest(s, isAlpha).None?
    ensures FirstCut(s).Placeholder? ==>
      var part := FromFormat(FirstCut(s).name, isAlpha);
      Prepend(list, SplitRest(s, isAlpha))
        == if part.Invalid? then None
           else Prepend(WithVerbatim(list, FirstCut(s).before) + [part], SplitRest(FirstCut(s).after, isAlpha))
  {
    hide FromFormat, FindOpen, FindClose;
    var cut := FirstCut(s);
    assert list + [] == list;
    if cut.Placeholder? {
      var part := FromFormat(cut.name, isAlpha);
      PrependTwice(list, Before(cut.before) + [part], SplitRest(cut.after, isAlpha));
      assert list + (Before(cut.before) + [part]) == WithVerbatim(list, cut.before) + [part];
    }
  }

  lemma PrependTwice(a: seq<Part>, b: seq<Part>, r: Option<seq<Part>>)
    ensures Prepend(a, Prepend(b, r)) == Prepend(a + b, r)
  {
    if r.Some? {
      assert a + (b + r.value) == (a + b) + r.value;
    }
  }

  lemma PrependNothing(r: Option<seq<Part>>)
    ensures Prepend([], r) == r
  {
    assert r.Some? ==> [] + r.value == r.value;
  }

  function Prepend(list: seq<Part>, r: Option<seq<Part>>): Option<seq<Part>> {
    if r.None? then None else Some(list + r.value)
  }

  // ---- the round trip ----------------------------------------------------------------------

  /** Every numeric placeholder of the string is canonical. */
  predicate CanonicalNames(s: string)
    decreases |s|
  {
    match FirstCut(s)
    case NoOpen => true
    case Unclosed => true
    case Placeholder(_, name, after) => CanonicalName(name) && CanonicalNames(after)
  }

  /** Of two equal texts, the longer one has a brace where the shorter ends. */
  lemma BraceWhereShorterEnds(x: string, y: string, p: string, q: string)
    requires x + "}" + p == y + "}" + q
    ensures |x| < |y| ==> y[|x|] == '}'
  {
    var l, r := x + "}" + p, y + "}" + q;
    assert l[|x|] == '}';
    assert forall k :: 0 <= k < |y| ==> r[k] == y[k];
  }

  /** Texts closed by a first brace are equal only piece by piece. */
  lemma BraceSplits(x: string, y: string, p: string, q: string)
    requires '}' !in x && '}' !in y
    ensures x + "}" + p == y + "}" + q <==> x == y && p == q
  {
    var l, r := x + "}" + p, y + "}" + q;
    if l == r {
      BraceWhereShorterEnds(x, y, p, q);
      BraceWhereShorterEnds(y, x, q, p);
      assert x == l[..|x|] && y == r[..|y|] && p == l[|x| + 1..] && q == r[|y| + 1..];
    }
  }

  /** Printing the parts gives the template back exactly when its numbers are canonical. */
  lemma {:induction false} RestRoundTripIff(s: string, isAlpha: char -> bool)
    requires SplitRest(s, isAlpha).Some?
    ensures PrintAll(SplitRest(s, isAlpha).value) == s <==> CanonicalNames(s)
    decreases |s|
  {
    hide FromFormat, NameOf, Before, CanonicalName, FirstCut, PrintAll;
    if s == "" || FirstCut(s).NoOpen? {
      VerbatimText(s);
    } else {
      var Placeholder(before, name, after) := FirstCut(s);
      var part, rest := FromFormat(name, isAlpha), SplitRest(after, isAlpha).value;
      CutRejoins(s);
      RestRoundTripIff(after, isAlpha);
      NameRoundTripIff(name, isAlpha);
      NameHasNoBrace(name, isAlpha);
      PrintPlaceholderIff(before, name, after, part, rest);
    }
  }

  lemma VerbatimText(s: string)
    ensures PrintAll([Verbatim(s)]) == s && PrintAll([]) == ""
    ensures FirstCut("").NoOpen?
  {
    assert PrintAll([Verbatim(s)]) == s + "";
  }

  lemma PrintPlaceholderIff(before: string, name: string, after: string, part: Part, rest: seq<Part>)
    requires !part.Verbatim? && '}' !in name && '}' !in NameOf(part)
    ensures PrintAll((Before(before) + [part]) + rest) == before + ("%{" + (name + "}" + after))
       <==> NameOf(part) == name && PrintAll(rest) == after
  {
    hide NameOf, PrintAll, Before;
    assert (Before(before) + [part]) + rest == Before(before) + ([part] + rest);
    PrintBefore(before, [part] + rest);
    PlaceholderText(part, rest);
    BraceSplits(NameOf(part), name, PrintAll(rest), after);
    PrefixCancels("%{", NameOf(part) + "}" + PrintAll(rest), name + "}" + after);
    PrefixCancels(before, PrintAll([part] + rest), "%{" + (name + "}" + after));
  }

  lemma PlaceholderText(part: Part, rest: seq<Part>)
    requires !part.Verbatim?
    ensures PrintAll([part] + rest) == "%{" + (NameOf(part) + "}" + PrintAll(rest))
  {
    hide NameOf;
    assert ([part] + rest)[1..] == rest;
    Regroup("%{" + NameOf(part), "}", PrintAll(rest));
    Regroup("%{", NameOf(part), "}" + PrintAll(rest));
    Regroup(NameOf(part), "}", PrintAll(rest));
  }

  lemma PrintBefore(text: string, parts: seq<Part>)
    ensures PrintAll(Before(text) + parts) == text + PrintAll(parts)
  {
    if text == "" {
      assert Before(text) + parts == parts && text + PrintAll(parts) == PrintAll(parts);
    } else {
      assert (Before(text) + parts)[1..] == parts;
    }
  }

  lemma PrefixCancels(p: string, x: string, y: string)
    ensures p + x == p + y <==> x == y
  {
    if p + x == p + y {
      assert x == (p + x)[|p|..] && y == (p + y)[|p|..];
    }
  }

  /** The same for `strpartial_split` itself, whose shortcut keeps short strings as they are. */
  lemma SplitRoundTripIff(s: string, isAlpha: char -> bool)
    requires Split(s, isAlpha).Some?
    ensures PrintAll(Split(s, isAlpha).value) == s <==> |s| < 4 || CanonicalNames(s)
  {
    if |s| < 4 {
      assert PrintAll([Verbatim(s)]) == s + "";
    } else {
      RestRoundTripIff(s, isAlpha);
    }
  }

  // ---- and back --------------------------------------------------------------------------

  predicate HasOpen(s: string) {
    exists j :: 0 <= j < |s| - 1 && s[j] == '%' && s[j + 1] == '{'
  }

  /** A part that reads back as itself, were it printed alone. */
  predicate Readable(part: Part, isAlpha: char -> bool) {
    if part.Verbatim? then part.text != "" && !HasOpen(part.text)
    else !part.Invalid? && '}' !in NameOf(part) && FromFormat(NameOf(part), isAlpha) == part
  }

  /** Readable parts, no two texts in a row. */
  predicate Template(parts: seq<Part>, isAlpha: char -> bool) {
    && (forall i :: 0 <= i < |parts| ==> Readable(parts[i], isAlpha))
    && forall i :: 0 <= i < |parts| - 1 ==> !parts[i].Verbatim? || !parts[i + 1].Verbatim?
  }

  /** Exactly the capture numbers that fit an int read back. */
  lemma CaptureReadableIff(n: int, isAlpha: char -> bool)
    ensures Readable(Capture(n), isAlpha) <==> 0 <= n <= INT_MAX
  {
    if n >= 0 {
      ValueOfDecimal(n);
      DecimalHasNoBrace(n);
      var s := Decimal(n);
      assert s[0] in s;
    }
  }

  /** The five letters stand for their parts exactly where they count as letters. */
  lemma LettersReadableIff(isAlpha: char -> bool)
    ensures Readable(Source, isAlpha) <==> isAlpha('s')
    ensures Readable(DateTime, isAlpha) <==> isAlpha('d')
    ensures Readable(LogLine, isAlpha) <==> isAlpha('m')
    ensures Readable(FractSecond, isAlpha) <==> isAlpha('t')
    ensures Readable(DateTimeFract, isAlpha) <==> isAlpha('T')
  {
    NoEnvPrefix("s");
    NoEnvPrefix("d");
    NoEnvPrefix("m");
    NoEnvPrefix("t");
    NoEnvPrefix("T");
  }

  lemma NoEnvPrefix(s: string)
    requires |s| == 1
    ensures !("env:" <= s)
  {
  }

  /** An environment variable of any name without a brace. */
  lemma EnvReadableIff(name: string, isAlpha: char -> bool)
    ensures Readable(Env(name), isAlpha) <==> '}' !in name
  {
    var sym := "env:" + name;
    assert sym[0] == 'e' && sym[4..] == name && "env:" <= sym;
    assert '}' in sym <==> '}' in name;
  }

  /** A variable whose name is not empty, a number, one of the letters or an environment variable. */
  lemma VarReadableIff(name: string, isAlpha: char -> bool)
    ensures Readable(Var(name), isAlpha) <==>
            name != "" && '}' !in name && !IsDigit(name[0]) && !("env:" <= name) && !(|name| == 1 && isAlpha(name[0]))
  {
  }

  /** A number is read as it is written. */
  lemma NumberIsRead(a: char, b: char, isAlpha: char -> bool)
    requires IsDigit(a) && IsDigit(b)
    ensures FromFormat([a], isAlpha) == Capture(a as int - '0' as int)
    ensures FromFormat([a, b], isAlpha) == Capture(10 * (a as int - '0' as int) + (b as int - '0' as int))
  {
    assert [a][..0] == "" && [a, b][..1] == [a];
    assert Value([a]) == a as int - '0' as int;
  }

  lemma FirstOpenIs(before: string, after: string)
    requires !HasOpen(before)
    ensures FindOpen(before + ("%{" + after)) == Some(|before|)
  {
    hide FindOpen;
    var s := before + ("%{" + after);
    assert s[|before|] == '%' && s[|before| + 1] == '{';
    assert forall j :: 0 <= j < |before| ==> s[j] == before[j];
  }

  lemma FirstCutIs(before: string, name: string, after: string)
    requires !HasOpen(before) && '}' !in name
    ensures FirstCut(before + ("%{" + (name + "}" + after))) == Placeholder(before, name, after)
  {
    hide FindOpen, FindClose;
    var inner := name + "}" + after;
    var s := before + ("%{" + inner);
    FirstOpenIs(before, inner);
    assert s[|before| + 2..] == inner && s[..|before|] == before;
    assert inner[|name|] == '}' && inner[|name|] in inner;
    FirstCloseIs(name, after);
    assert inner[..|name|] == name && inner[|name| + 1..] == after;
  }

  lemma {:induction false} FirstCloseIs(name: string, after: string)
    requires '}' !in name
    ensures FindClose(name + "}" + after) == Some(|name|)
    decreases |name|
  {
    if name != "" {
      FirstCloseIs(name[1..], after);
      assert (name + "}" + after)[1..] == name[1..] + "}" + after;
    }
  }

  lemma NoCut(text: string)
    requires !HasOpen(text)
    ensures FirstCut(text).NoOpen?
  {
    hide FindOpen;
    assert FindOpen(text).None?;
  }

  /** A printed placeholder, with the text before it, is split off first. */
  lemma SplitPlaceholder(before: string, part: Part, rest: seq<Part>, isAlpha: char -> bool)
    requires !HasOpen(before) && !part.Verbatim? && Readable(part, isAlpha)
    ensures SplitRest(PrintAll(Before(before) + ([part] + rest)), isAlpha)
         == Prepend(Before(before) + [part], SplitRest(PrintAll(rest), isAlpha))
  {
    hide FirstCut, FromFormat, NameOf, Before, PrintAll, Prepend, HasOpen;
    PrintBefore(before, [part] + rest);
    PlaceholderText(part, rest);
    FirstCutIs(before, NameOf(part), PrintAll(rest));
  }

  lemma {:induction false} RestReadsBack(parts: seq<Part>, isAlpha: char -> bool)
    requires Template(parts, isAlpha)
    ensures SplitRest(PrintAll(parts), isAlpha) == Some(parts)
    decreases |parts|
  {
    hide FirstCut, FromFormat, PrintAll, SplitRest, HasOpen, Readable, NameOf;
    if parts == [] {
      EmptyReadsBack(isAlpha);
    } else if !parts[0].Verbatim? {
      var rest := parts[1..];
      RestReadsBack(rest, isAlpha);
      assert parts == Before("") + ([parts[0]] + rest) == (Before("") + [parts[0]]) + rest;
      EmptyReadsBack(isAlpha);
      SplitPlaceholder("", parts[0], rest, isAlpha);
    } else if |parts| == 1 {
      TextReadsBack(parts[0].text, isAlpha);
      assert parts == [Verbatim(parts[0].text)];
    } else {
      var text, rest := parts[0].text, parts[2..];
      TextReadsBack(text, isAlpha);
      RestReadsBack(rest, isAlpha);
      assert !parts[0 + 1].Verbatim?;
      assert parts == Before(text) + ([parts[1]] + rest) == (Before(text) + [parts[1]]) + rest;
      SplitPlaceholder(text, parts[1], rest, isAlpha);
    }
  }

  lemma EmptyReadsBack(isAlpha: char -> bool)
    ensures SplitRest(PrintAll([]), isAlpha) == Some([]) && !HasOpen("")
  {
  }

  lemma TextReadsBack(text: string, isAlpha: char -> bool)
    requires Readable(Verbatim(text), isAlpha)
    ensures text != "" && !HasOpen(text) && SplitRest(PrintAll([Verbatim(text)]), isAlpha) == Some([Verbatim(text)])
  {
    NoCut(text);
    VerbatimText(text);
  }

  /** Splitting undoes printing, for every template with at least one part. */
  lemma SplitReadsBack(parts: seq<Part>, isAlpha: char -> bool)
    requires parts != [] && Template(parts, isAlpha)
    ensures Split(PrintAll(parts), isAlpha) == Some(parts)
  {
    RestReadsBack(parts, isAlpha);
    LongUnlessText(parts, isAlpha);
    if |PrintAll(parts)| < 4 {
      assert parts == [Verbatim(parts[0].text)];
      VerbatimText(parts[0].text);
    }
  }

  lemma LongUnlessText(parts: seq<Part>, isAlpha: char -> bool)
    requires parts != [] && Template(parts, isAlpha)
    ensures |parts| > 1 || !parts[0].Verbatim? ==> |PrintAll(parts)| >= 4
  {
    hide Readable, Print;
    PrintedLength(parts[0], isAlpha);
    if |parts| > 1 {
      PrintedLength(parts[1], isAlpha);
      assert PrintAll(parts[1..]) == Print(parts[1]) + PrintAll(parts[1..][1..]);
      assert !parts[0].Verbatim? || !parts[0 + 1].Verbatim?;
    }
  }

  lemma PrintedLength(part: Part, isAlpha: char -> bool)
    requires Readable(part, isAlpha)
    ensures |Print(part)| >= 1 && (!part.Verbatim? ==> |Print(part)| >= 4)
  {
    assert FromFormat("", isAlpha).Invalid?;
  }

  // ---- what is accepted ----------------------------------------------------------------

  /** A name that stands for something: a number, one of the five letters, or any other text. */
  predicate ValidName(name: string, isAlpha: char -> bool) {
    && name != ""
    && (IsDigit(name[0]) ==> AllDigits(name))
    && (|name| == 1 && isAlpha(name[0]) && !IsDigit(name[0]) ==>
          name[0] == 's' || name[0] == 'd' || name[0] == 'm' || name[0] == 't' || name[0] == 'T')
  }

  lemma FormatValidIff(name: string, isAlpha: char -> bool)
    ensures FromFormat(name, isAlpha).Invalid? <==> !ValidName(name, isAlpha)
  {
  }

  /** Text without a placeholder, or text, a closed placeholder with a valid name, and more of the same. */
  ghost predicate WellWritten(s: string, isAlpha: char -> bool)
    decreases |s|
  {
    !HasOpen(s)
    || exists before: string, name: string, after: string ::
         Cuts(s, before, name, after) && ValidName(name, isAlpha) && |after| < |s| && WellWritten(after, isAlpha)
  }

  lemma OpenOrNot(s: string)
    ensures FirstCut(s).NoOpen? <==> !HasOpen(s)
    ensures FirstCut(s).Placeholder? ==> !HasOpen(FirstCut(s).before)
  {
    hide FindOpen;
    var i := FindOpen(s);
    if i.Some? {
      assert s[i.value] == '%' && s[i.value + 1] == '{';
      var before := s[..i.value];
      assert forall j :: 0 <= j < |before| ==> before[j] == s[j];
    }
  }

  /** `s` is `before`, a placeholder called `name`, and `after`. */
  ghost predicate Cuts(s: string, before: string, name: string, after: string) {
    |after| < |s| && s == before + ("%{" + (name + "}" + after)) && !HasOpen(before) && '}' !in name
  }

  lemma OneCut(s: string, before: string, name: string, after: string)
    requires Cuts(s, before, name, after)
    ensures FirstCut(s) == Placeholder(before, name, after)
  {
    FirstCutIs(before, name, after);
  }

  lemma CutCuts(s: string)
    requires FirstCut(s).Placeholder?
    ensures var Placeholder(before, name, after) := FirstCut(s); Cuts(s, before, name, after)
  {
    CutRejoins(s);
    OpenOrNot(s);
  }

  lemma RestStep(s: string, isAlpha: char -> bool)
    ensures FirstCut(s).NoOpen? ==> SplitRest(s, isAlpha).Some?
    ensures FirstCut(s).Unclosed? ==> SplitRest(s, isAlpha).None?
    ensures FirstCut(s).Placeholder? ==>
              var Placeholder(_, name, after) := FirstCut(s);
              (SplitRest(s, isAlpha).Some? <==> ValidName(name, isAlpha) && SplitRest(after, isAlpha).Some?)
  {
    VerbatimText(s);
    if FirstCut(s).Placeholder? {
      FormatValidIff(FirstCut(s).name, isAlpha);
    }
    hide FromFormat, ValidName, FindOpen, FindClose;
  }

  /** The loop accepts exactly well-written text. */
  lemma {:induction false} RestAcceptsIff(s: string, isAlpha: char -> bool)
    ensures SplitRest(s, isAlpha).Some? <==> WellWritten(s, isAlpha)
    decreases |s|
  {
    hide FirstCut, ValidName, HasOpen, SplitRest, Cuts;
    OpenOrNot(s);
    RestStep(s, isAlpha);
    if FirstCut(s).Placeholder? {
      CutCuts(s);
      assert |FirstCut(s).after| < |s|;
      RestAcceptsIff(FirstCut(s).after, isAlpha);
    }
    if WellWritten(s, isAlpha) && HasOpen(s) {
      var before, name, after :| Cuts(s, before, name, after) && ValidName(name, isAlpha) && |after| < |s| && WellWritten(after, isAlpha);
      OneCut(s, before, name, after);
    }
  }

  /** A template is rejected exactly when it has four characters or more and a placeholder that is unclosed or misnamed. */
  lemma SplitRejectsIff(s: string, isAlpha: char -> bool)
    ensures Split(s, isAlpha).None? <==> |s| >= 4 && !WellWritten(s, isAlpha)
  {
    RestAcceptsIff(s, isAlpha);
  }

  /** A placeholder alone is read as its part. */
  lemma PartAlone(part: Part, isAlpha: char -> bool)
    requires !part.Verbatim? && Readable(part, isAlpha)
    ensures Split("%{" + NameOf(part) + "}", isAlpha) == Some([part])
  {
    hide Split, Readable, NameOf;
    var parts := [part];
    assert parts[1..] == [];
    SplitReadsBack(parts, isAlpha);
    assert PrintAll([]) == "" && PrintAll(parts) == Print(part) + PrintAll([]);
    assert Print(part) + "" == Print(part);
  }

  /** The templates of the five letters. */
  lemma LetterTemplates(isAlpha: char -> bool)
    ensures isAlpha('m') ==> Split("%{m}", isAlpha) == Some([LogLine])
    ensures isAlpha('s') ==> Split("%{s}", isAlpha) == Some([Source])
    ensures isAlpha('d') ==> Split("%{d}", isAlpha) == Some([DateTime])
    ensures isAlpha('t') ==> Split("%{t}", isAlpha) == Some([FractSecond])
    ensures isAlpha('T') ==> Split("%{T}", isAlpha) == Some([DateTimeFract])
  {
    LettersReadableIff(isAlpha);
    hide Split, Readable;
    if isAlpha('m') { PartAlone(LogLine, isAlpha); assert "%{" + "m" + "}" == "%{m}"; }
    if isAlpha('s') { PartAlone(Source, isAlpha); assert "%{" + "s" + "}" == "%{s}"; }
    if isAlpha('d') { PartAlone(DateTime, isAlpha); assert "%{" + "d" + "}" == "%{d}"; }
    if isAlpha('t') { PartAlone(FractSecond, isAlpha); assert "%{" + "t" + "}" == "%{t}"; }
    if isAlpha('T') { PartAlone(DateTimeFract, isAlpha); assert "%{" + "T" + "}" == "%{T}"; }
  }

  lemma ZeroZeroSeven()
    ensures AllDigits("007") && ToInt("007") == 7 && !Canonical("007")
  {
    var name := "007";
    assert name[..2] == "00" && name[..2][..1] == "0" && name[..2][..1][..0] == "";
    assert Value("0") == 0 && Value("00") == 0 && Value(name) == 7;
  }

  lemma CutZeroZeroSeven()
    ensures FirstCut("%{007}") == Placeholder("", "007", "")
  {
    var s := "%{007}";
    var inner := s[2..];
    assert inner == "007}" && inner[1..] == "07}" && inner[2..] == "7}" && inner[3..] == "}";
    assert FindClose("}") == Some(0) && FindClose("7}") == Some(1);
    assert FindClose("07}") == Some(2) && FindClose(inner) == Some(3);
    assert inner[..3] == "007" && inner[4..] == "" && s[..0] == "";
  }

  /** "%{007}" is read as capture 7, and prints as "%{7}". */
  lemma LeadingZerosAreLost(isAlpha: char -> bool)
    ensures Split("%{007}", isAlpha) == Some([Capture(7)]) && !CanonicalNames("%{007}")
  {
    hide FirstCut, ToInt, Canonical;
    ZeroZeroSeven();
    CutZeroZeroSeven();
    assert FromFormat("007", isAlpha) == Capture(7) && Before("") + [Capture(7)] + [] == [Capture(7)];
    assert SplitRest("", isAlpha) == Some([]);
  }
}
