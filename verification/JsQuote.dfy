/** JavaScript string quoting, and the string literal grammar it targets (section 7.8.4 of ECMA-262 5.1). */
module JsQuote {
  import opened Wrappers
  import opened Text

  /** Strings are sequences of code points, so that lone surrogates are strings too. */
  type CodePoint = int
  type Str = seq<CodePoint>

  const BACKSLASH: CodePoint := 0x5C
  const QUOTE: CodePoint := 0x27
  const DOUBLE_QUOTE: CodePoint := 0x22
  const TAB: CodePoint := 0x09
  const LF: CodePoint := 0x0A
  const CR: CodePoint := 0x0D

  /** The entity `&quot;`. */
  const QUOT: Str := [0x26, 0x71, 0x75, 0x6F, 0x74, 0x3B]

  function HexDigit(d: CodePoint): CodePoint
    requires 0 <= d < 16
  {
    if d < 10 then 0x30 + d else 0x61 + (d - 10)
  }

  /** The format `\u%04x` of a 16-bit value. */
  function UnicodeEscape(n: CodePoint): Str
    requires 0 <= n < 0x10000
  {
    [BACKSLASH, 0x75, HexDigit(n / 4096), HexDigit(n / 256 % 16), HexDigit(n / 16 % 16), HexDigit(n % 16)]
  }

  datatype Rule = Rule(from: CodePoint, to: Str)

  /** The whole-string replacements in the order they are made. */
  function Rules(quoteDoubleQuotes: bool): seq<Rule> {
    [
      Rule(BACKSLASH, [BACKSLASH, BACKSLASH]),
      Rule(CR, [BACKSLASH, 0x72]),
      Rule(LF, [BACKSLASH, 0x6E]),
      Rule(TAB, [BACKSLASH, 0x74]),
      Rule(QUOTE, [BACKSLASH, QUOTE])
    ] + if quoteDoubleQuotes then [Rule(DOUBLE_QUOTE, QUOT)] else []
  }

  function ReplaceAll(s: Str, rules: seq<Rule>): Str
    decreases |rules|
  {
    if rules == [] then s else ReplaceAll(Replace(s, [rules[0].from], rules[0].to), rules[1..])
  }

  /** The last pass, over U+0080..U+FFFF. */
  function EscapeUpper(s: Str): Str {
    if s == [] then [] else UpperOne(s[0]) + EscapeUpper(s[1..])
  }

  function UpperOne(c: CodePoint): Str { if 0x80 <= c <= 0xFFFF then UnicodeEscape(c) else [c] }

  predicate Ascii(s: Str) { forall i :: 0 <= i < |s| ==> 0 <= s[i] < 0x80 }

  /** `None` is the failure to encode the result as ASCII. */
  function QuoteJs(s: Str, quoteDoubleQuotes: bool := false): Option<Str> {
    var r := EscapeUpper(ReplaceAll(s, Rules(quoteDoubleQuotes)));
    if Ascii(r) then Some(r) else None
  }

  // ----- what a literal's contents mean -----

  predicate AllHex(s: Str) { forall i :: 0 <= i < |s| ==> IsHex(s[i]) }

  predicate IsDigit(c: CodePoint) { 0x30 <= c <= 0x39 }

  predicate IsHex(c: CodePoint) { IsDigit(c) || 0x61 <= c <= 0x66 || 0x41 <= c <= 0x46 }

  function HexValue(c: CodePoint): (v: CodePoint)
    requires IsHex(c)
    ensures 0 <= v < 16
  {
    if c <= 0x39 then c - 0x30 else if c <= 0x46 then c - 0x41 + 10 else c - 0x61 + 10
  }

  function HexNumber(s: Str): CodePoint
    requires AllHex(s)
  {
    if s == [] then 0 else HexNumber(s[..|s| - 1]) * 16 + HexValue(s[|s| - 1])
  }

  predicate IsLineTerminator(c: CodePoint) { c == LF || c == CR || c == 0x2028 || c == 0x2029 }

  /** Escape characters with a meaning of their own: b t n v f r. Any other stands for itself. */
  function SingleEscape(c: CodePoint): CodePoint {
    if c == 0x62 then 0x08 else if c == 0x74 then TAB else if c == 0x6E then LF
    else if c == 0x76 then 0x0B else if c == 0x66 then 0x0C else if c == 0x72 then CR else c
  }

  function Cons(c: CodePoint, r: Option<Str>): Option<Str> {
    if r.None? then None else Some([c] + r.value)
  }

  /** The value of the text between two single quotes; `None` when it is no literal: a raw line
      terminator or single quote, or a malformed escape. */
  function Decode(s: Str): Option<Str>
    decreases |s|
  {
    if s == [] then Some([])
    else if s[0] == QUOTE || IsLineTerminator(s[0]) then None
    else if s[0] != BACKSLASH then Cons(s[0], Decode(s[1..]))
    else if |s| == 1 then None
    else if s[1] == 0x75 then  // u and four hexadecimal digits
      if |s| >= 6 && AllHex(s[2..6]) then Cons(HexNumber(s[2..6]), Decode(s[6..])) else None
    else if s[1] == 0x78 then  // x and two hexadecimal digits
      if |s| >= 4 && AllHex(s[2..4]) then Cons(HexNumber(s[2..4]), Decode(s[4..])) else None
    else if s[1] == 0x30 && (|s| == 2 || !IsDigit(s[2])) then Cons(0, Decode(s[2..]))
    else if IsDigit(s[1]) then None
    else if s[1] == CR && |s| >= 3 && s[2] == LF then Decode(s[3..])
    else if IsLineTerminator(s[1]) then Decode(s[2..])
    else Cons(SingleEscape(s[1]), Decode(s[2..]))
  }

  // ----- the passes amount to one escape per character -----

  function EscapeOne(c: CodePoint, dq: bool): Str {
    if c == BACKSLASH then [BACKSLASH, BACKSLASH]
    else if c == CR then [BACKSLASH, 0x72]
    else if c == LF then [BACKSLASH, 0x6E]
    else if c == TAB then [BACKSLASH, 0x74]
    else if c == QUOTE then [BACKSLASH, QUOTE]
    else if c == DOUBLE_QUOTE && dq then QUOT
    else if 0x80 <= c <= 0xFFFF then UnicodeEscape(c)
    else [c]
  }

  function EscapeEach(s: Str, dq: bool): Str {
    if s == [] then [] else EscapeOne(s[0], dq) + EscapeEach(s[1..], dq)
  }

  lemma {:induction false} ReplaceAllAppend(a: Str, b: Str, rules: seq<Rule>)
    ensures ReplaceAll(a + b, rules) == ReplaceAll(a, rules) + ReplaceAll(b, rules)
    decreases |rules|
  {
    if rules != [] {
      var c, rep := rules[0].from, rules[0].to;
      ReplaceAppend(a, b, c, rep);
      ReplaceAllAppend(Replace(a, [c], rep), Replace(b, [c], rep), rules[1..]);
    }
  }

  lemma {:induction false} EscapeUpperAppend(a: Str, b: Str)
    ensures EscapeUpper(a + b) == EscapeUpper(a) + EscapeUpper(b)
  {
    if a == [] {
      assert a + b == b;
    } else {
      EscapeUpperAppend(a[1..], b);
      assert (a + b)[0] == a[0] && (a + b)[1..] == a[1..] + b;
      Assoc(UpperOne(a[0]), EscapeUpper(a[1..]), EscapeUpper(b));
    }
  }

  lemma {:induction false} ReplaceAllAbsent(s: Str, rules: seq<Rule>)
    requires forall r :: r in rules ==> r.from !in s
    ensures ReplaceAll(s, rules) == s
  {
    if rules != [] {
      ReplaceAbsent(s, rules[0].from, rules[0].to);
      ReplaceAllAbsent(s, rules[1..]);
    }
  }

  /** A character is rewritten by the one rule for it, when no later rule touches what that rule wrote. */
  lemma {:induction false} ReplaceAllHit(rules: seq<Rule>, i: nat)
    requires i < |rules|
    requires forall j :: 0 <= j < i ==> rules[j].from != rules[i].from
    requires forall j :: i < j < |rules| ==> rules[j].from !in rules[i].to
    ensures ReplaceAll([rules[i].from], rules) == rules[i].to
  {
    var c := rules[i].from;
    if i == 0 {
      assert Replace([c], [c], rules[0].to) == rules[0].to + [] == rules[0].to;
      ReplaceAllAbsent(rules[0].to, rules[1..]);
    } else {
      ReplaceAbsent([c], rules[0].from, rules[0].to);
      ReplaceAllHit(rules[1..], i - 1);
    }
  }

  lemma PassesOnOne(c: CodePoint, dq: bool)
    ensures EscapeUpper(ReplaceAll([c], Rules(dq))) == EscapeOne(c, dq)
  {
    var rules := Rules(dq);
    if i :| 0 <= i < |rules| && rules[i].from == c {
      RuleIsEscape(dq, i);
      ReplaceAllHit(rules, i);
      EscapeUpperAscii(rules[i].to);
    } else {
      NoRuleFor(c, dq);
      ReplaceAllAbsent([c], rules);
      assert [c][1..] == [];
      assert EscapeUpper([c]) == UpperOne(c) + [] == UpperOne(c);
    }
  }

  /** No rule touches what an earlier one wrote. */
  lemma RuleIsEscape(dq: bool, i: nat)
    requires i < |Rules(dq)|
    ensures var rules := Rules(dq);
            && rules[i].to == EscapeOne(rules[i].from, dq) && Ascii(rules[i].to)
            && (forall j :: 0 <= j < i ==> rules[j].from != rules[i].from)
            && (forall j :: i < j < |rules| ==> rules[j].from !in rules[i].to)
  {
  }

  lemma NoRuleFor(c: CodePoint, dq: bool)
    requires forall i :: 0 <= i < |Rules(dq)| ==> Rules(dq)[i].from != c
    ensures EscapeOne(c, dq) == UpperOne(c)
  {
    var rules := Rules(dq);
    assert rules[0].from == BACKSLASH && rules[1].from == CR && rules[2].from == LF;
    assert rules[3].from == TAB && rules[4].from == QUOTE;
    assert dq ==> rules[5].from == DOUBLE_QUOTE;
  }

  lemma {:induction false} EscapeUpperAscii(s: Str)
    requires Ascii(s)
    ensures EscapeUpper(s) == s
  {
    if s != [] {
      EscapeUpperAscii(s[1..]);
    }
  }

  lemma {:induction false} PassesEscapeEach(s: Str, dq: bool)
    ensures EscapeUpper(ReplaceAll(s, Rules(dq))) == EscapeEach(s, dq)
  {
    var rules := Rules(dq);
    if s == [] {
      ReplaceAllAbsent([], rules);
    } else {
      assert s == [s[0]] + s[1..];
      ReplaceAllAppend([s[0]], s[1..], rules);
      EscapeUpperAppend(ReplaceAll([s[0]], rules), ReplaceAll(s[1..], rules));
      PassesOnOne(s[0], dq);
      PassesEscapeEach(s[1..], dq);
    }
  }

  // ----- the round trip -----

  predicate Bmp(s: Str) { forall i :: 0 <= i < |s| ==> 0 <= s[i] <= 0xFFFF }

  /** The text a reader of the literal sees: the source, with double quotes as entities when asked. */
  function Shown(s: Str, quoteDoubleQuotes: bool): Str {
    if quoteDoubleQuotes then Replace(s, [DOUBLE_QUOTE], QUOT) else s
  }

  lemma HexOne(d: CodePoint)
    requires 0 <= d < 16
    ensures IsHex(HexDigit(d)) && HexValue(HexDigit(d)) == d
  {
  }

  lemma HexSnoc(s: Str, d: CodePoint)
    requires AllHex(s) && 0 <= d < 16
    ensures AllHex(s + [HexDigit(d)])
    ensures HexNumber(s + [HexDigit(d)]) == HexNumber(s) * 16 + d
  {
    HexOne(d);
    assert (s + [HexDigit(d)])[..|s|] == s;
  }

  lemma HexFour(a: int, b: int, c: int, d: int)
    requires 0 <= a < 16 && 0 <= b < 16 && 0 <= c < 16 && 0 <= d < 16
    ensures AllHex([HexDigit(a), HexDigit(b), HexDigit(c), HexDigit(d)])
    ensures HexNumber([HexDigit(a), HexDigit(b), HexDigit(c), HexDigit(d)]) == ((a * 16 + b) * 16 + c) * 16 + d
  {
    var none: Str := [];
    var one := none + [HexDigit(a)];
    var two := one + [HexDigit(b)];
    var three := two + [HexDigit(c)];
    HexSnoc(none, a);
    HexSnoc(one, b);
    HexSnoc(two, c);
    HexSnoc(three, d);
    assert three + [HexDigit(d)] == [HexDigit(a), HexDigit(b), HexDigit(c), HexDigit(d)];
  }

  lemma Base16(n: int)
    requires 0 <= n < 0x10000
    ensures 0 <= n / 4096 < 16
    ensures ((n / 4096 * 16 + n / 256 % 16) * 16 + n / 16 % 16) * 16 + n % 16 == n
  {
    assert n / 256 == n / 16 / 16 && n / 4096 == n / 256 / 16;
  }

  lemma HexRoundTrip(n: CodePoint)
    requires 0 <= n < 0x10000
    ensures AllHex(UnicodeEscape(n)[2..6])
    ensures HexNumber(UnicodeEscape(n)[2..6]) == n
  {
    Base16(n);
    HexFour(n / 4096, n / 256 % 16, n / 16 % 16, n % 16);
    var e := UnicodeEscape(n);
    assert e[2..6] == [e[2], e[3], e[4], e[5]];
  }

  lemma DecodePlain(c: CodePoint, rest: Str)
    requires c != BACKSLASH && c != QUOTE && !IsLineTerminator(c)
    ensures Decode([c] + rest) == Cons(c, Decode(rest))
  {
    assert ([c] + rest)[1..] == rest;
  }

  /** Reading one escaped character off the front of a literal. */
  lemma DecodeOne(c: CodePoint, rest: Str)
    requires 0 <= c <= 0xFFFF
    ensures Decode(EscapeOne(c, false) + rest) == Cons(c, Decode(rest))
  {
    var e := EscapeOne(c, false);
    var s := e + rest;
    if 0x80 <= c {
      HexRoundTrip(c);
      assert s[2..6] == e[2..6];
      assert s[6..] == rest;
    } else if |e| == 2 {
      assert s[2..] == rest;
    } else {
      DecodePlain(c, rest);
    }
  }

  /** Text without backslashes, quotes or line breaks means itself. */
  lemma {:induction false} DecodePlainText(s: Str, rest: Str)
    requires forall i :: 0 <= i < |s| ==> s[i] != BACKSLASH && s[i] != QUOTE && !IsLineTerminator(s[i])
    ensures Decode(s + rest) == (var d := Decode(rest); if d.None? then None else Some(s + d.value))
  {
    if s == [] {
      assert s + rest == rest;
      assert Decode(rest).Some? ==> s + Decode(rest).value == Decode(rest).value;
    } else {
      DecodePlainText(s[1..], rest);
      DecodePlain(s[0], s[1..] + rest);
      assert s + rest == [s[0]] + (s[1..] + rest);
      assert Decode(rest).Some? ==> s + Decode(rest).value == [s[0]] + (s[1..] + Decode(rest).value);
    }
  }

  function ShownOne(c: CodePoint, dq: bool): Str { if dq && c == DOUBLE_QUOTE then QUOT else [c] }

  lemma ShownFirst(c: CodePoint, rest: Str, dq: bool)
    ensures Shown([c] + rest, dq) == ShownOne(c, dq) + Shown(rest, dq)
  {
    ReplaceFirst(c, rest, DOUBLE_QUOTE, QUOT);
  }

  lemma DecodeShown(c: CodePoint, rest: Str, dq: bool)
    requires 0 <= c <= 0xFFFF && Decode(rest).Some?
    ensures Decode(EscapeOne(c, dq) + rest) == Some(ShownOne(c, dq) + Decode(rest).value)
  {
    if dq && c == DOUBLE_QUOTE {
      DecodePlainText(QUOT, rest);
    } else {
      DecodeOne(c, rest);
    }
  }

  lemma {:induction false} DecodeEscapeEach(s: Str, dq: bool)
    requires Bmp(s)
    ensures Decode(EscapeEach(s, dq)) == Some(Shown(s, dq))
  {
    if s != [] {
      var c, t := s[0], s[1..];
      DecodeEscapeEach(t, dq);
      DecodeShown(c, EscapeEach(t, dq), dq);
      assert s == [c] + t;
      ShownFirst(c, t, dq);
    }
  }

  lemma AsciiAppend(a: Str, b: Str)
    ensures Ascii(a + b) <==> Ascii(a) && Ascii(b)
  {
    if Ascii(a + b) {
      assert forall i :: 0 <= i < |a| ==> a[i] == (a + b)[i];
      assert forall i :: 0 <= i < |b| ==> b[i] == (a + b)[|a| + i];
    }
  }

  lemma EscapeOneAscii(c: CodePoint, dq: bool)
    ensures Ascii(EscapeOne(c, dq)) <==> 0 <= c <= 0xFFFF
  {
    assert Ascii(EscapeOne(c, dq)) ==> 0 <= EscapeOne(c, dq)[0] < 0x80;
  }

  lemma BmpFirst(s: Str)
    requires s != []
    ensures Bmp(s) <==> 0 <= s[0] <= 0xFFFF && Bmp(s[1..])
  {
    assert forall i :: 0 < i < |s| ==> s[i] == s[1..][i - 1];
  }

  lemma {:induction false} EscapeEachAscii(s: Str, dq: bool)
    ensures Ascii(EscapeEach(s, dq)) <==> Bmp(s)
  {
    if s != [] {
      EscapeEachAscii(s[1..], dq);
      AsciiAppend(EscapeOne(s[0], dq), EscapeEach(s[1..], dq));
      EscapeOneAscii(s[0], dq);
      BmpFirst(s);
    }
  }

  /** Quoting succeeds exactly on BMP strings, writes plain ASCII, and the single-quoted literal
      it writes means the source text again; in particular it holds no raw line break or quote. */
  lemma QuoteJsRoundTrip(s: Str, dq: bool)
    ensures QuoteJs(s, dq).Some? <==> Bmp(s)
    ensures Bmp(s) ==> Ascii(QuoteJs(s, dq).value)
    ensures Bmp(s) ==> Decode(QuoteJs(s, dq).value) == Some(Shown(s, dq))
  {
    PassesEscapeEach(s, dq);
    EscapeEachAscii(s, dq);
    if Bmp(s) {
      DecodeEscapeEach(s, dq);
    }
  }

  // ----- quoting character by character -----

  lemma EachOne(c: CodePoint, dq: bool)
    ensures EscapeEach([c], dq) == EscapeOne(c, dq)
  {
    assert [c][1..] == [];
    assert EscapeOne(c, dq) + [] == EscapeOne(c, dq);
  }

  lemma {:induction false} EachAppend(a: Str, b: Str, dq: bool)
    ensures EscapeEach(a + b, dq) == EscapeEach(a, dq) + EscapeEach(b, dq)
  {
    if a == [] {
      assert a + b == b;
    } else {
      EachAppend(a[1..], b, dq);
      assert (a + b)[0] == a[0] && (a + b)[1..] == a[1..] + b;
      Assoc(EscapeOne(a[0], dq), EscapeEach(a[1..], dq), EscapeEach(b, dq));
    }
  }

  /** The digits `0` to `9` and `a` to `f`. */
  function LowerHex(d: int): CodePoint { if d < 10 then 48 + d else 87 + d }

  /** What quoting writes for a character: backslash, carriage return, line feed, tab, single quote, double quote;
      four lower-case hexadecimal digits from U+0080 on; the rest as they are. */
  lemma QuoteOne(c: CodePoint, dq: bool)
    requires 0 <= c <= 0xFFFF
    ensures QuoteJs([c], dq) == Some(
              if c == 92 then [92, 92]
              else if c == 13 then [92, 114]
              else if c == 10 then [92, 110]
              else if c == 9 then [92, 116]
              else if c == 39 then [92, 39]
              else if c == 34 && dq then [38, 113, 117, 111, 116, 59]
              else if c < 128 then [c]
              else [92, 117, LowerHex(c / 4096), LowerHex(c / 256 % 16), LowerHex(c / 16 % 16), LowerHex(c % 16)])
  {
    PassesEscapeEach([c], dq);
    EachOne(c, dq);
    EscapeOneAscii(c, dq);
  }

  /** A text is quoted character by character. */
  lemma QuoteAppend(a: Str, b: Str, dq: bool)
    requires Bmp(a) && Bmp(b)
    ensures QuoteJs([], dq) == Some([])
    ensures QuoteJs(a, dq).Some? && QuoteJs(b, dq).Some?
    ensures QuoteJs(a + b, dq) == Some(QuoteJs(a, dq).value + QuoteJs(b, dq).value)
  {
    var none: Str := [];
    QuoteJsRoundTrip(a, dq);
    QuoteJsRoundTrip(b, dq);
    QuoteJsRoundTrip(a + b, dq);
    QuoteJsRoundTrip(none, dq);
    PassesEscapeEach(a, dq);
    PassesEscapeEach(b, dq);
    PassesEscapeEach(a + b, dq);
    PassesEscapeEach(none, dq);
    EachAppend(a, b, dq);
  }
}
