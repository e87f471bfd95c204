/** Full-text search strings: escaping before a Sphinx query, restoring for display. */
module SearchQuery {
  import opened Text

  predicate IsSpace(c: char) { c in " \t\n\r" || c == '\U{0B}' || c == '\U{0C}' }

  predicate IsAlnum(c: char) { 'A' <= c <= 'Z' || 'a' <= c <= 'z' || '0' <= c <= '9' }

  function SkipSpaces(q: string): string {
    if q != "" && IsSpace(q[0]) then SkipSpaces(q[1..]) else q
  }

  /** A field-limited query: optional blanks, an `@`, then one line of text. A final newline is allowed. */
  predicate IsFieldQuery(q: string) {
    var r := SkipSpaces(q);
    && r != "" && r[0] == '@'
    && var body := if r[|r| - 1] == '\n' then r[1..|r| - 1] else r[1..];
       body != "" && '\n' !in body
  }

  /** The text starts with an Exim message id: 6, 6 and 2 alphanumerics joined by hyphens. */
  predicate StartsWithEximId(q: string) {
    && |q| >= 16
    && q[6] == '-' && q[13] == '-'
    && forall i :: 0 <= i < 16 && i != 6 && i != 13 ==> IsAlnum(q[i])
  }

  function Escape(q: string, c: char): string { Replace(q, [c], ['\\', c]) }

  function Unescape(q: string, c: char): string { Replace(q, ['\\', c], [c]) }

  predicate EscapesAt(q: string) { '@' in q && !IsFieldQuery(q) }

  function Clean(q: string): string {
    var q1 := if EscapesAt(q) then Escape(q, '@') else q;
    if StartsWithEximId(q1) then Escape(q1, '-') else q1
  }

  function Restore(q: string): string { Unescape(Unescape(q, '@'), '-') }

  lemma {:induction false} UnescapeUndoesEscape(s: string, c: char)
    requires c != '\\'
    ensures Unescape(Escape(s, c), c) == s
  {
    if s != "" {
      UnescapeUndoesEscape(s[1..], c);
      var t := Escape(s[1..], c);
      if s[0] == c {
        assert Escape(s, c) == ['\\', c] + t;
        assert (['\\', c] + t)[2..] == t;
      } else {
        assert Escape(s, c) == [s[0]] + t;
        assert ([s[0]] + t)[1..] == t;
        assert t == "" || t[0] != c;
      }
    }
  }

  lemma {:induction false} UnescapeShortens(s: string, c: char)
    requires c != '\\'
    ensures if Contains(s, ['\\', c]) then |Unescape(s, c)| < |s| else Unescape(s, c) == s
  {
    if s == "" {
    } else if ['\\', c] <= s {
      UnescapeNeverGrows(s[2..], c);
    } else {
      UnescapeShortens(s[1..], c);
    }
  }

  lemma {:induction false} UnescapeNeverGrows(s: string, c: char)
    ensures |Unescape(s, c)| <= |s|
  {
    if s == "" {
    } else if ['\\', c] <= s {
      UnescapeNeverGrows(s[2..], c);
    } else {
      UnescapeNeverGrows(s[1..], c);
    }
  }

  lemma EscapeFirst(h: char, t: string, c: char)
    ensures Escape([h] + t, c) == (if h == c then ['\\', c] else [h]) + Escape(t, c)
  {
    ReplaceFirst(h, t, c, ['\\', c]);
  }

  /** Nothing to undo at the front. */
  lemma UnescapeFirst(h: char, t: string, c: char)
    requires c != '\\' && !(h == '\\' && t != "" && t[0] == c)
    ensures Unescape([h] + t, c) == [h] + Unescape(t, c)
  {
    var s, pair := [h] + t, ['\\', c];
    assert s[0] == h && s[1..] == t;
    assert pair[0] == '\\' && pair[1] == c;
    if t != "" { assert s[1] == t[0]; }
  }

  lemma UnescapePair(t: string, c: char)
    ensures Unescape(['\\', c] + t, c) == [c] + Unescape(t, c)
  {
    var s := ['\\', c] + t;
    assert ['\\', c] <= s && s[2..] == t;
  }

  /** Escaping one character commutes with unescaping another. */
  lemma {:induction false} EscapeCommutes(s: string, c: char, d: char)
    requires c != d && c != '\\' && d != '\\'
    ensures Unescape(Escape(s, d), c) == Escape(Unescape(s, c), d)
  {
    if s == "" {
    } else if ['\\', c] <= s {
      EscapeCommutes(s[2..], c, d);
      assert s == ['\\', c] + s[2..];
      CommutesOverPair(s[2..], c, d);
    } else {
      EscapeCommutes(s[1..], c, d);
      assert s == [s[0]] + s[1..];
      CommutesOneMore(s[0], s[1..], c, d);
    }
  }

  lemma CommutesOverPair(t: string, c: char, d: char)
    requires c != d && c != '\\' && d != '\\'
    requires Unescape(Escape(t, d), c) == Escape(Unescape(t, c), d)
    ensures Unescape(Escape(['\\', c] + t, d), c) == Escape(Unescape(['\\', c] + t, c), d)
  {
    assert ['\\', c] + t == ['\\'] + ([c] + t);
    EscapeFirst('\\', [c] + t, d);
    EscapeFirst(c, t, d);
    assert ['\\'] + ([c] + Escape(t, d)) == ['\\', c] + Escape(t, d);
    UnescapePair(Escape(t, d), c);
    UnescapePair(t, c);
    EscapeFirst(c, Unescape(t, c), d);
  }

  /** The escape of another character is left alone. */
  lemma UnescapeOtherPair(d: char, t: string, c: char)
    requires c != d && c != '\\' && d != '\\'
    ensures Unescape(['\\', d] + t, c) == ['\\', d] + Unescape(t, c)
  {
    UnescapeFirst(d, t, c);
    UnescapeFirst('\\', [d] + t, c);
    Assoc(['\\'], [d], t);
    Assoc(['\\'], [d], Unescape(t, c));
    assert ['\\'] + [d] == ['\\', d];
  }

  /** An escaped text begins as the text does, or with a backslash. */
  lemma EscapeHead(t: string, d: char)
    ensures Escape(t, d) == "" <==> t == ""
    ensures t != "" ==> Escape(t, d)[0] == if t[0] == d then '\\' else t[0]
  {
    if t != "" {
      EscapeFirst(t[0], t[1..], d);
      assert [t[0]] + t[1..] == t;
    }
  }

  lemma CommutesOneMore(h: char, t: string, c: char, d: char)
    requires c != d && c != '\\' && d != '\\' && !(h == '\\' && t != "" && t[0] == c)
    requires Unescape(Escape(t, d), c) == Escape(Unescape(t, c), d)
    ensures Unescape(Escape([h] + t, d), c) == Escape(Unescape([h] + t, c), d)
  {
    var e := Escape(t, d);
    EscapeFirst(h, t, d);
    UnescapeFirst(h, t, c);
    EscapeFirst(h, Unescape(t, c), d);
    if h == d {
      UnescapeOtherPair(d, e, c);
    } else {
      EscapeHead(t, d);
      UnescapeFirst(h, e, c);
    }
  }

  /** Escaping `@` changes no leading Exim id, so the guard may be read off the raw query. */
  lemma {:induction false} EximGuardOnRawQuery(q: string)
    ensures StartsWithEximId(Escape(q, '@')) <==> StartsWithEximId(q)
  {
    EscapeKeepsPrefix(q, 16);
  }

  lemma {:induction false} EscapeKeepsPrefix(q: string, n: nat)
    ensures (forall i :: 0 <= i < n && i < |q| ==> q[i] != '@') ==>
              |Escape(q, '@')| >= |q| && forall i :: 0 <= i < n && i < |q| ==> Escape(q, '@')[i] == q[i]
    ensures (exists i :: 0 <= i < n && i < |q| && q[i] == '@') ==>
              exists i :: 0 <= i < n && i < |Escape(q, '@')| && Escape(q, '@')[i] == '\\'
    ensures |Escape(q, '@')| >= |q|
    ensures |q| <= n && (forall i :: 0 <= i < n && i < |q| ==> q[i] != '@') ==> Escape(q, '@') == q
  {
    if q == "" {
    } else if n == 0 {
      EscapeKeepsPrefix(q[1..], 0);
    } else {
      EscapeKeepsPrefix(q[1..], n - 1);
      var t := Escape(q[1..], '@');
      if q[0] == '@' {
        assert Escape(q, '@') == ['\\', '@'] + t;
        assert Escape(q, '@')[0] == '\\';
      } else {
        assert Escape(q, '@') == [q[0]] + t;
        if i :| 0 <= i < n && i < |q| && q[i] == '@' {
          assert q[1..][i - 1] == '@';
          var j :| 0 <= j < n - 1 && j < |t| && t[j] == '\\';
          assert Escape(q, '@')[j + 1] == '\\';
        }
      }
    }
  }

  /** Exactly which queries come back unchanged: each of the two escapes is either applied on
      the way in, or has nothing to undo on the way out. */
  lemma {:induction false} RoundTripExactly(q: string)
    ensures Restore(Clean(q)) == q <==>
              && (EscapesAt(q) || !Contains(q, "\\@"))
              && (StartsWithEximId(q) || !Contains(q, "\\-"))
  {
    EximGuardOnRawQuery(q);
    var q1 := if EscapesAt(q) then Escape(q, '@') else q;
    var u := Unescape(q1, '@');
    UnescapeUndoesEscape(q, '@');
    UnescapeShortens(q, '@');
    if StartsWithEximId(q1) {
      EscapeCommutes(q1, '@', '-');
      UnescapeUndoesEscape(u, '-');
    } else {
      UnescapeShortens(q, '-');
      UnescapeNeverGrows(u, '-');
    }
  }

  /** Every query that is free of both escape sequences survives the round trip. */
  lemma PlainQueriesRoundTrip(q: string)
    requires !Contains(q, "\\@") && !Contains(q, "\\-")
    ensures Restore(Clean(q)) == q
  {
    RoundTripExactly(q);
  }

  /** The smallest query that does not come back: nothing is escaped, and the hyphen is unescaped. */
  lemma HyphenIsLost()
    ensures Restore(Clean("\\-")) != "\\-"
  {
    var q := "\\-";
    assert "\\-" <= q;
    RoundTripExactly(q);
  }

  /** The same of an at sign, in a query limited to a field. */
  lemma AtIsLost()
    ensures Restore(Clean("@\\@")) != "@\\@"
  {
    var q := "@\\@";
    assert q[1..] == "\\@";
    assert SkipSpaces(q) == q && IsFieldQuery(q);
    assert Contains(q, "\\@");
    RoundTripExactly(q);
  }

  // ----- which queries are escaped, and how -----

  /** `blanks` are blanks, and after the `@` there is one line of text, with at most a newline after it. */
  predicate FieldSplit(q: string, blanks: string, text: string, end: string) {
    && q == blanks + "@" + text + end
    && (forall i :: 0 <= i < |blanks| ==> blanks[i] in " \t\n\r\U{0B}\U{0C}")
    && text != "" && (forall i :: 0 <= i < |text| ==> text[i] != '\n') && (end == "" || end == "\n")
  }

  lemma {:induction false} SkipSpacesSplits(q: string) returns (blanks: string)
    ensures q == blanks + SkipSpaces(q) && forall i :: 0 <= i < |blanks| ==> IsSpace(blanks[i])
  {
    blanks := "";
    if q != "" && IsSpace(q[0]) {
      var more := SkipSpacesSplits(q[1..]);
      blanks := [q[0]] + more;
    }
  }

  lemma {:induction false} SkipsAll(blanks: string, r: string)
    requires (forall i :: 0 <= i < |blanks| ==> IsSpace(blanks[i])) && r != "" && !IsSpace(r[0])
    ensures SkipSpaces(blanks + r) == r
  {
    if blanks == "" {
      assert blanks + r == r;
    } else {
      assert (blanks + r)[1..] == blanks[1..] + r;
      SkipsAll(blanks[1..], r);
    }
  }

  lemma SpacesListed(c: char)
    ensures IsSpace(c) <==> c in " \t\n\r\U{0B}\U{0C}"
  {
    var all := " \t\n\r\U{0B}\U{0C}";
    assert all[0] == ' ' && all[1] == '\t' && all[2] == '\n' && all[3] == '\r' && all[4] == '\U{0B}'
           && all[5] == '\U{0C}';
    var some := " \t\n\r";
    assert some[0] == ' ' && some[1] == '\t' && some[2] == '\n' && some[3] == '\r';
  }

  lemma FieldSplitIs(q: string, blanks: string, text: string, end: string)
    requires FieldSplit(q, blanks, text, end)
    ensures IsFieldQuery(q)
  {
    var r := "@" + text + end;
    forall i | 0 <= i < |blanks|
      ensures IsSpace(blanks[i])
    {
      SpacesListed(blanks[i]);
    }
    assert q == blanks + r;
    SkipsAll(blanks, r);
    if end == "" {
      assert r[1..] == text;
    } else {
      assert r[1..|r| - 1] == text;
    }
  }

  lemma BodySplits(r: string) returns (text: string, end: string)
    requires r != "" && r[0] == '@'
    requires var body := if r[|r| - 1] == '\n' then r[1..|r| - 1] else r[1..]; body != "" && '\n' !in body
    ensures r == "@" + text + end && text != "" && (forall i :: 0 <= i < |text| ==> text[i] != '\n')
    ensures end == "" || end == "\n"
  {
    if r[|r| - 1] == '\n' {
      text, end := r[1..|r| - 1], "\n";
    } else {
      text, end := r[1..], "";
    }
    assert forall i :: 0 <= i < |text| ==> text[i] in text;
  }

  lemma FieldQuerySplits(q: string) returns (blanks: string, text: string, end: string)
    requires IsFieldQuery(q)
    ensures FieldSplit(q, blanks, text, end)
  {
    blanks := SkipSpacesSplits(q);
    text, end := BodySplits(SkipSpaces(q));
    forall i | 0 <= i < |blanks|
      ensures blanks[i] in " \t\n\r\U{0B}\U{0C}"
    {
      SpacesListed(blanks[i]);
    }
    Assoc(blanks, "@" + text, end);
    Assoc(blanks, "@", text);
  }

  /** A query is limited to a field if and only if it splits so. */
  lemma FieldQueryMeans(q: string)
    ensures IsFieldQuery(q) <==> exists blanks, text, end :: FieldSplit(q, blanks, text, end)
  {
    if IsFieldQuery(q) {
      var blanks, text, end := FieldQuerySplits(q);
    }
    if blanks, text, end :| FieldSplit(q, blanks, text, end) {
      FieldSplitIs(q, blanks, text, end);
    }
  }

  predicate Alphanumeric(s: string) {
    forall i :: 0 <= i < |s| ==> 'A' <= s[i] <= 'Z' || 'a' <= s[i] <= 'z' || '0' <= s[i] <= '9'
  }

  predicate EximSplit(q: string, a: string, b: string, c: string, rest: string) {
    && q == a + "-" + b + "-" + c + rest && |a| == 6 && |b| == 6 && |c| == 2
    && Alphanumeric(a) && Alphanumeric(b) && Alphanumeric(c)
  }

  lemma EximIdMeans(q: string)
    ensures StartsWithEximId(q) <==> exists a, b, c, rest :: EximSplit(q, a, b, c, rest)
  {
    if StartsWithEximId(q) {
      var a, b, c, rest := q[..6], q[7..13], q[14..16], q[16..];
      assert q == a + "-" + b + "-" + c + rest;
      assert EximSplit(q, a, b, c, rest);
    }
    if a, b, c, rest :| EximSplit(q, a, b, c, rest) {
      assert q[..6] == a && q[7..13] == b && q[14..16] == c;
      forall i | 0 <= i < 16 && i != 6 && i != 13
        ensures IsAlnum(q[i])
      {
        assert i < 6 ==> q[i] == a[i];
        assert 7 <= i < 13 ==> q[i] == b[i - 7];
        assert 14 <= i ==> q[i] == c[i - 14];
      }
    }
  }

  /** One pass, with a backslash before each `@` and each hyphen if so asked. */
  function Backslashed(q: string, at: bool, hyphen: bool): string {
    if q == "" then ""
    else
      (if (at && q[0] == '@') || (hyphen && q[0] == '-') then ['\\', q[0]] else [q[0]])
      + Backslashed(q[1..], at, hyphen)
  }

  lemma EscapesFirst(h: char, t: string, at: bool, hyphen: bool)
    ensures EscapedBoth([h] + t, at, hyphen) ==
              (if (at && h == '@') || (hyphen && h == '-') then ['\\', h] else [h]) + EscapedBoth(t, at, hyphen)
  {
    var t1 := if at then Escape(t, '@') else t;
    EscapeFirst(h, t, '@');
    EscapeFirst(h, t1, '-');
    if at && h == '@' {
      EscapeFirst('\\', ['@'] + t1, '-');
      EscapeFirst('@', t1, '-');
      Assoc(['\\'], ['@'], t1);
      Assoc(['\\'], ['@'], Escape(t1, '-'));
      assert ['\\'] + ['@'] == ['\\', '@'];
    }
  }

  function EscapedBoth(q: string, at: bool, hyphen: bool): string {
    var q1 := if at then Escape(q, '@') else q;
    if hyphen then Escape(q1, '-') else q1
  }

  lemma {:induction false} EscapesPass(q: string, at: bool, hyphen: bool)
    ensures EscapedBoth(q, at, hyphen) == Backslashed(q, at, hyphen)
  {
    if q != "" {
      EscapesPass(q[1..], at, hyphen);
      EscapesFirst(q[0], q[1..], at, hyphen);
      assert q == [q[0]] + q[1..];
    }
  }

  /** A query gets a backslash before every `@` unless it is limited to a field, and one before every hyphen
      if it starts with an Exim message id; nothing else changes. */
  lemma CleanMeans(q: string)
    ensures Clean(q) == Backslashed(q, !(exists blanks, text, end :: FieldSplit(q, blanks, text, end)),
                                    exists a, b, c, rest :: EximSplit(q, a, b, c, rest))
  {
    FieldQueryMeans(q);
    EximIdMeans(q);
    EximGuardOnRawQuery(q);
    if '@' !in q {
      ReplaceAbsent(q, '@', ['\\', '@']);
    }
    EscapesPass(q, !IsFieldQuery(q), StartsWithEximId(q));
  }

  /** One pass, dropping the backslash before an `@` or a hyphen. */
  function Unbackslashed(q: string): string {
    if q == "" then ""
    else if |q| > 1 && q[0] == '\\' && (q[1] == '@' || q[1] == '-') then [q[1]] + Unbackslashed(q[2..])
    else [q[0]] + Unbackslashed(q[1..])
  }

  lemma {:induction false} RestoreMeans(q: string)
    ensures Restore(q) == Unbackslashed(q)
  {
    if q == "" {
    } else if |q| > 1 && q[0] == '\\' && (q[1] == '@' || q[1] == '-') {
      var t := q[2..];
      RestoreMeans(t);
      assert q == ['\\', q[1]] + t;
      if q[1] == '@' {
        UnescapePair(t, '@');
        UnescapeFirst('@', Unescape(t, '@'), '-');
      } else {
        UnescapeOtherPair('-', t, '@');
        UnescapePair(Unescape(t, '@'), '-');
      }
    } else {
      var h, t := q[0], q[1..];
      RestoreMeans(t);
      assert q == [h] + t;
      UnescapeFirst(h, t, '@');
      UnescapeHead(t);
      UnescapeFirst(h, Unescape(t, '@'), '-');
    }
  }

  lemma UnescapeHead(t: string)
    ensures var u := Unescape(t, '@'); u != "" && u[0] == '-' ==> t != "" && t[0] == '-'
  {
  }
}
