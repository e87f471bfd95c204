/** What an address with a tag, such as `user+*@domain`, admits as a `LIKE` pattern. */
module TaggedAddress {
  import opened Text
  import opened Sql
  import opened AccessFilter

  // ----- patterns one unit at a time -----

  /** The pattern after its first unit: two characters for an escape, else one. */
  function Rest(p: string): string
    requires p != ""
  {
    if p[0] == '\\' && |p| > 1 then p[2..] else p[1..]
  }

  /** Whether the first unit, if it is not `%`, stands for the character. */
  predicate FirstFits(p: string, c: char)
    requires p != ""
  {
    if p[0] == '_' then true else if p[0] == '\\' then |p| > 1 && c == p[1] else c == p[0]
  }

  lemma LikeFirst(s: string, p: string)
    requires p != "" && p[0] != '%'
    ensures Like(s, p) <==> s != "" && FirstFits(p, s[0]) && Like(s[1..], Rest(p))
  {
  }

  /** The pattern ends inside an escape, and so stands for nothing. */
  predicate Dangling(p: string)
    decreases |p|
  {
    p != "" && (p == "\\" || Dangling(Rest(p)))
  }

  lemma {:induction false} DanglingMatchesNothing(s: string, p: string)
    requires Dangling(p)
    ensures !Like(s, p)
    decreases |p|, |s|
  {
    if p[0] == '%' {
      DanglingMatchesNothing(s, p[1..]);
      if s != "" { DanglingMatchesNothing(s[1..], p); }
    } else if s != "" && p != "\\" {
      LikeFirst(s, p);
      DanglingMatchesNothing(s[1..], Rest(p));
    }
  }

  predicate SplitsAt(s: string, k: int, p: string, q: string) {
    0 <= k <= |s| && Like(s[..k], p) && Like(s[k..], q)
  }

  predicate Splits(s: string, p: string, q: string) { exists k | 0 <= k <= |s| :: SplitsAt(s, k, p, q) }

  lemma SplitsEmpty(s: string, q: string)
    ensures Splits(s, "", q) <==> Like(s, q)
  {
    assert s[..0] == "" && s[0..] == s;
    if Like(s, q) { assert SplitsAt(s, 0, "", q); }
    if k :| 0 <= k <= |s| && SplitsAt(s, k, "", q) { assert s[..k] == "" && k == 0; }
  }

  lemma SplitsFirst(s: string, p: string, q: string)
    requires p != "" && p[0] != '%'
    ensures Splits(s, p, q) <==> s != "" && FirstFits(p, s[0]) && Splits(s[1..], Rest(p), q)
  {
    if k :| 0 <= k <= |s| && SplitsAt(s, k, p, q) {
      LikeFirst(s[..k], p);
      assert s[..k][1..] == s[1..][..k - 1] && s[k..] == s[1..][k - 1..];
      assert SplitsAt(s[1..], k - 1, Rest(p), q);
    }
    if s != "" && FirstFits(p, s[0]) {
      if k :| 0 <= k <= |s[1..]| && SplitsAt(s[1..], k, Rest(p), q) {
        LikeFirst(s[..k + 1], p);
        assert s[..k + 1][1..] == s[1..][..k] && s[k + 1..] == s[1..][k..];
        assert SplitsAt(s, k + 1, p, q);
      }
    }
  }

  lemma SplitsAny(s: string, p: string, q: string)
    requires p != "" && p[0] == '%'
    ensures Splits(s, p, q) <==> Splits(s, p[1..], q) || (s != "" && Splits(s[1..], p, q))
  {
    if k :| 0 <= k <= |s| && SplitsAt(s, k, p, q) {
      if Like(s[..k], p[1..]) {
        assert SplitsAt(s, k, p[1..], q);
      } else {
        assert s[..k][1..] == s[1..][..k - 1] && s[k..] == s[1..][k - 1..];
        assert SplitsAt(s[1..], k - 1, p, q);
      }
    }
    if k :| 0 <= k <= |s| && SplitsAt(s, k, p[1..], q) { assert SplitsAt(s, k, p, q); }
    if s != "" {
      if k :| 0 <= k <= |s[1..]| && SplitsAt(s[1..], k, p, q) {
        assert s[..k + 1][1..] == s[1..][..k] && s[k + 1..] == s[1..][k..];
        assert SplitsAt(s, k + 1, p, q);
      }
    }
  }

  lemma RestAppend(p: string, q: string)
    requires p != "" && p != "\\"
    ensures Rest(p + q) == Rest(p) + q
  {
    if p[0] == '\\' {
      assert (p + q)[2..] == p[2..] + q;
    } else {
      assert (p + q)[1..] == p[1..] + q;
    }
  }

  /** A pattern in two parts matches what splits into a match of each, if no escape straddles them. */
  lemma {:induction false} LikeAppend(s: string, p: string, q: string)
    requires !Dangling(p)
    ensures Like(s, p + q) <==> Splits(s, p, q)
    decreases |p|, |s|
  {
    if p == "" {
      assert p + q == q;
      SplitsEmpty(s, q);
    } else {
      RestAppend(p, q);
      assert (p + q)[0] == p[0];
      if p[0] == '%' {
        SplitsAny(s, p, q);
        LikeAppend(s, p[1..], q);
        if s != "" { LikeAppend(s[1..], p, q); }
      } else {
        SplitsFirst(s, p, q);
        LikeFirst(s, p + q);
        FitsAppend(s, p, q);
        if s != "" { LikeAppend(s[1..], Rest(p), q); }
      }
    }
  }

  lemma FitsAppend(s: string, p: string, q: string)
    requires p != "" && p != "\\"
    ensures s != "" ==> (FirstFits(p + q, s[0]) <==> FirstFits(p, s[0]))
  {
    assert (p + q)[0] == p[0];
    if |p| > 1 { assert (p + q)[1] == p[1]; }
  }

  lemma {:induction false} LikeAnything(s: string, p: string)
    ensures Like(s, "%" + p) <==> exists k :: 0 <= k <= |s| && Like(s[k..], p)
  {
    assert ("%" + p)[1..] == p;
    assert s[0..] == s;
    if s != "" {
      LikeAnything(s[1..], p);
      assert forall k :: 0 <= k < |s| ==> s[1..][k..] == s[k + 1..];
      if k :| 0 <= k <= |s| && Like(s[k..], p) {
        if k > 0 { assert Like(s[1..][k - 1..], p); }
      }
    }
  }

  // ----- the pattern of an address -----

  predicate IsSign(c: char) { c == '+' || c == '-' }

  lemma PatternHead(h: char, t: string)
    requires !(IsSign(h) && t != "" && t[0] == '*')
    ensures TagPattern([h] + t) == [h] + TagPattern(t)
  {
    var s := [h] + t;
    assert s[0] == h && s[1..] == t;
    if t != "" { assert s[1] == t[0]; }
  }

  lemma PatternTag(sign: char, t: string)
    requires IsSign(sign)
    ensures TagPattern([sign, '*'] + t) == [sign, '%'] + TagPattern(t)
  {
    var s := [sign, '*'] + t;
    assert s[0] == sign && s[1] == '*' && s[2..] == t;
  }

  lemma AroundTag(first: char, t: string, sign: char, d: string)
    requires IsSign(first) && IsSign(sign)
    requires TagPattern(t + ([sign, '*'] + d)) == TagPattern(t) + ([sign, '%'] + TagPattern(d))
    ensures TagPattern(([first, '*'] + t) + ([sign, '*'] + d)) ==
              TagPattern([first, '*'] + t) + ([sign, '%'] + TagPattern(d))
  {
    var tail := [sign, '*'] + d;
    PatternTag(first, t);
    PatternTag(first, t + tail);
    Assoc([first, '*'], t, tail);
    Assoc([first, '%'], TagPattern(t), [sign, '%'] + TagPattern(d));
  }

  lemma AroundHead(h: char, t: string, sign: char, d: string)
    requires IsSign(sign) && !(IsSign(h) && t != "" && t[0] == '*')
    requires TagPattern(t + ([sign, '*'] + d)) == TagPattern(t) + ([sign, '%'] + TagPattern(d))
    ensures TagPattern(([h] + t) + ([sign, '*'] + d)) == TagPattern([h] + t) + ([sign, '%'] + TagPattern(d))
  {
    var tail := [sign, '*'] + d;
    assert (t + tail)[0] == if t == "" then sign else t[0];
    PatternHead(h, t);
    PatternHead(h, t + tail);
    Assoc([h], t, tail);
    Assoc([h], TagPattern(t), [sign, '%'] + TagPattern(d));
  }

  /** Each part of an address around a tag is rewritten on its own. */
  lemma {:induction false} PatternAround(u: string, sign: char, d: string)
    requires IsSign(sign)
    ensures TagPattern(u + ([sign, '*'] + d)) == TagPattern(u) + ([sign, '%'] + TagPattern(d))
    decreases |u|
  {
    if u == "" {
      PatternTag(sign, d);
      assert u + ([sign, '*'] + d) == [sign, '*'] + d;
      assert TagPattern(u) + ([sign, '%'] + TagPattern(d)) == [sign, '%'] + TagPattern(d);
    } else if |u| > 1 && IsSign(u[0]) && u[1] == '*' {
      PatternAround(u[2..], sign, d);
      AroundTag(u[0], u[2..], sign, d);
      assert u == [u[0], '*'] + u[2..];
    } else {
      PatternAround(u[1..], sign, d);
      AroundHead(u[0], u[1..], sign, d);
      assert u == [u[0]] + u[1..];
    }
  }

  /** Escapes are where they were. */
  lemma {:induction false} PatternKeepsEscapes(s: string)
    ensures |TagPattern(s)| == |s|
    ensures forall i :: 0 <= i < |s| ==> (TagPattern(s)[i] == '\\' <==> s[i] == '\\')
    decreases |s|
  {
    if |s| >= 2 {
      if IsSign(s[0]) && s[1] == '*' {
        PatternKeepsEscapes(s[2..]);
        assert forall i :: 2 <= i < |s| ==> s[i] == s[2..][i - 2] && TagPattern(s)[i] == TagPattern(s[2..])[i - 2];
      } else {
        PatternKeepsEscapes(s[1..]);
        assert forall i :: 1 <= i < |s| ==> s[i] == s[1..][i - 1] && TagPattern(s)[i] == TagPattern(s[1..])[i - 1];
      }
    }
  }

  lemma {:induction false} SameEscapes(p: string, q: string)
    requires |p| == |q| && forall i :: 0 <= i < |p| ==> (p[i] == '\\' <==> q[i] == '\\')
    ensures Dangling(p) <==> Dangling(q)
    decreases |p|
  {
    if p != "" {
      assert p == "\\" <==> |p| == 1 && p[0] == '\\';
      assert q == "\\" <==> |q| == 1 && q[0] == '\\';
      SameEscapes(Rest(p), Rest(q));
    }
  }

  /** What precedes the sign as a pattern: a backslash at its end would only escape the sign. */
  function Before(u: string): string {
    var p := TagPattern(u);
    if Dangling(p) then p[..|p| - 1] else p
  }

  lemma {:induction false} DanglingLast(p: string)
    requires Dangling(p)
    ensures p[|p| - 1] == '\\' && !Dangling(p[..|p| - 1])
    decreases |p|
  {
    if p != "\\" {
      var r := Rest(p);
      DanglingLast(r);
      var front := p[..|p| - 1];
      assert r[|r| - 1] == p[|p| - 1];
      if p[0] == '\\' {
        assert |p| > 2 && front[2..] == r[..|r| - 1];
      } else {
        assert front[1..] == r[..|r| - 1];
      }
      assert front != "\\" ==> Rest(front) == r[..|r| - 1];
      FrontNoEscape(p, front);
    } else {
      assert p[..0] == "";
    }
  }

  lemma FrontNoEscape(p: string, front: string)
    requires Dangling(p) && p != "\\" && front == p[..|p| - 1]
    ensures front != "\\"
  {
    assert |p| > 1 && p[0] == '\\' ==> Rest(p) == p[2..];
    assert |p| == 2 ==> |p[2..]| == 0;
  }

  lemma EscapedSign(s: string, sign: char, q: string)
    requires IsSign(sign)
    ensures Like(s, "\\" + ([sign] + q)) <==> Like(s, [sign] + q)
    ensures Like(s, [sign] + q) <==> s != "" && s[0] == sign && Like(s[1..], q)
  {
    var p := "\\" + ([sign] + q);
    assert p[0] == '\\' && p[1] == sign && p[2..] == q;
    assert ([sign] + q)[0] == sign && ([sign] + q)[1..] == q;
    LikeFirst(s, p);
    LikeFirst(s, [sign] + q);
  }

  lemma LikeAfter(s: string, u: string, sign: char, q: string)
    requires IsSign(sign)
    ensures Like(s, TagPattern(u) + ([sign] + q)) <==> Splits(s, Before(u), [sign] + q)
  {
    var p, b := TagPattern(u), Before(u);
    if Dangling(p) {
      DanglingLast(p);
      assert p == b + "\\";
      Assoc(b, "\\", [sign] + q);
      LikeAppend(s, b, "\\" + ([sign] + q));
      forall k | 0 <= k <= |s|
        ensures SplitsAt(s, k, b, "\\" + ([sign] + q)) <==> SplitsAt(s, k, b, [sign] + q)
      {
        EscapedSign(s[k..], sign, q);
      }
    } else {
      LikeAppend(s, p, [sign] + q);
    }
  }

  /** The sign at `i`, a match of what comes before it, and from `j` on one of what comes after the tag. */
  predicate Admitted(s: string, i: int, j: int, u: string, sign: char, d: string) {
    0 <= i < j <= |s| && Like(s[..i], Before(u)) && s[i] == sign && Like(s[j..], TagPattern(d))
  }

  /** Whatever characters it holds, an address tagged `+*` or `-*` admits exactly the texts in three parts:
      what the pattern before the sign matches, the sign and anything, what the pattern after the tag matches. */
  lemma TaggedAdmits(u: string, sign: char, d: string, s: string)
    requires IsSign(sign)
    ensures Like(s, TagPattern(u + ([sign, '*'] + d))) <==> exists i, j :: Admitted(s, i, j, u, sign, d)
  {
    var q := "%" + TagPattern(d);
    PatternAround(u, sign, d);
    assert [sign, '%'] + TagPattern(d) == [sign] + q;
    LikeAfter(s, u, sign, q);
    if i :| 0 <= i <= |s| && SplitsAt(s, i, Before(u), [sign] + q) {
      EscapedSign(s[i..], sign, q);
      var r := s[i..][1..];
      LikeAnything(r, TagPattern(d));
      var k :| 0 <= k <= |r| && Like(r[k..], TagPattern(d));
      assert r[k..] == s[i + 1 + k..];
      assert Admitted(s, i, i + 1 + k, u, sign, d);
    }
    if i, j :| Admitted(s, i, j, u, sign, d) {
      EscapedSign(s[i..], sign, q);
      var r := s[i..][1..];
      LikeAnything(r, TagPattern(d));
      assert r[j - i - 1..] == s[j..];
      assert SplitsAt(s, i, Before(u), [sign] + q);
    }
  }

  // ----- when only the tag is free -----

  /** The part between the sign and the rest is free. */
  ghost predicate OnlyTagFree(s: string, u: string, sign: char, d: string) { exists t :: s == u + ([sign] + (t + d)) }

  /** Stands for itself: no wildcard, no escape, no further tag. */
  predicate Literal(s: string) { '_' !in s && '%' !in s && '\\' !in s && !IsTagged(s) }

  lemma {:induction false} LikeLiteral(s: string, p: string)
    requires '_' !in p && '%' !in p && '\\' !in p
    ensures Like(s, p) <==> s == p
  {
    if p != "" {
      assert p[0] in p;
      if s != "" {
        LikeLiteral(s[1..], p[1..]);
        assert s == [s[0]] + s[1..] && p == [p[0]] + p[1..];
      }
    }
  }

  lemma {:induction false} NoEscapeNoDangling(p: string)
    requires '\\' !in p
    ensures !Dangling(p)
    decreases |p|
  {
    if p != "" {
      assert p[0] in p;
      NoEscapeNoDangling(p[1..]);
    }
  }

  lemma UntaggedHead(u: string)
    requires u != "" && !IsTagged(u)
    ensures !IsTagged(u[1..])
    ensures |u| > 1 ==> !(IsSign(u[0]) && u[1] == '*')
  {
    if |u| > 1 {
      assert u[..2] == [u[0], u[1]];
      assert u[0] == '+' && u[1] == '*' ==> "+*" <= u;
      assert u[0] == '-' && u[1] == '*' ==> "-*" <= u;
    }
  }

  lemma {:induction false} UntaggedPattern(u: string)
    requires !IsTagged(u)
    ensures TagPattern(u) == u
  {
    if u != "" {
      UntaggedHead(u);
      UntaggedPattern(u[1..]);
      PatternHead(u[0], u[1..]);
      assert u == [u[0]] + u[1..];
    }
  }

  predicate ThreeParts(s: string, i: int, j: int, u: string, sign: char, d: string) {
    0 <= i < j <= |s| && s[..i] == u && s[i] == sign && s[j..] == d
  }

  lemma AdmittedLiteral(s: string, i: int, j: int, u: string, sign: char, d: string)
    requires Literal(u) && Literal(d)
    ensures Admitted(s, i, j, u, sign, d) <==> ThreeParts(s, i, j, u, sign, d)
  {
    UntaggedPattern(u);
    UntaggedPattern(d);
    NoEscapeNoDangling(u);
    if 0 <= i < j <= |s| {
      LikeLiteral(s[..i], u);
      LikeLiteral(s[j..], d);
    }
  }

  lemma PartsTagFree(s: string, u: string, sign: char, d: string)
    ensures (exists i, j :: ThreeParts(s, i, j, u, sign, d)) <==> OnlyTagFree(s, u, sign, d)
  {
    if i, j :| ThreeParts(s, i, j, u, sign, d) {
      assert s == s[..i] + ([s[i]] + (s[i + 1..j] + s[j..]));
    }
    if t :| s == u + ([sign] + (t + d)) {
      var i, j := |u|, |u| + 1 + |t|;
      assert s[..i] == u && s[i] == sign;
      assert s[j..] == d;
      assert ThreeParts(s, i, j, u, sign, d);
    }
  }

  lemma LiteralAdmits(u: string, sign: char, d: string, s: string)
    requires Literal(u) && Literal(d) && IsSign(sign)
    ensures Like(s, TagPattern(u + ([sign, '*'] + d))) <==> OnlyTagFree(s, u, sign, d)
  {
    TaggedAdmits(u, sign, d, s);
    forall i, j { AdmittedLiteral(s, i, j, u, sign, d); }
    PartsTagFree(s, u, sign, d);
  }

  /** The shortest text a pattern matches: nothing for `%`, some letter for `_`. */
  function Shortest(p: string): string
    decreases |p|
  {
    if p == "" then "" else if p[0] == '%' then Shortest(p[1..]) else [Sample(p)] + Shortest(Rest(p))
  }

  function Sample(p: string): char
    requires p != ""
  {
    if p[0] == '_' then 'x' else if p[0] == '\\' && |p| > 1 then p[1] else p[0]
  }

  lemma {:induction false} ShortestMatches(p: string)
    requires !Dangling(p)
    ensures Like(Shortest(p), p)
    decreases |p|
  {
    if p != "" {
      if p[0] == '%' {
        ShortestMatches(p[1..]);
      } else {
        ShortestMatches(Rest(p));
        var s := Shortest(p);
        assert s[0] == Sample(p) && s[1..] == Shortest(Rest(p));
        LikeFirst(s, p);
      }
    }
  }

  predicate Special(p: string) { '%' in p || '\\' in p }

  lemma SpecialFirst(p: string)
    requires p != ""
    ensures Special(p) <==> p[0] == '%' || p[0] == '\\' || Special(p[1..])
  {
    assert p == [p[0]] + p[1..];
  }

  lemma {:induction false} ShortestLength(p: string)
    requires !Dangling(p)
    ensures |Shortest(p)| <= |p| && (Special(p) ==> |Shortest(p)| < |p|)
    decreases |p|
  {
    if p != "" {
      SpecialFirst(p);
      ShortestLength(if p[0] == '%' then p[1..] else Rest(p));
    }
  }

  /** The pattern around a tag: it drops the tag's `%`, and more if there is anything special before. */
  lemma {:induction false} ShortestAround(p: string, sign: char, q: string)
    requires IsSign(sign)
    ensures |Shortest(p + ([sign, '%'] + q))| <= |p| + 1 + |Shortest(q)|
    ensures Special(p) ==> |Shortest(p + ([sign, '%'] + q))| < |p| + 1 + |Shortest(q)|
    ensures Dangling(p + ([sign, '%'] + q)) <==> Dangling(q)
    decreases |p|
  {
    var tail := [sign, '%'] + q;
    if p == "" {
      AroundNothing(sign, q);
      assert p + tail == tail;
    } else if p == "\\" {
      AroundEscape(sign, q);
    } else {
      SpecialFirst(p);
      RestAppend(p, tail);
      assert (p + tail)[0] == p[0];
      ShortestAround(Rest(p), sign, q);
    }
  }

  lemma AroundNothing(sign: char, q: string)
    requires IsSign(sign)
    ensures Shortest([sign, '%'] + q) == [sign] + Shortest(q)
    ensures Dangling([sign, '%'] + q) <==> Dangling(q)
  {
    var p := [sign, '%'] + q;
    assert Rest(p) == "%" + q && ("%" + q)[1..] == q;
    assert Rest("%" + q) == q;
  }

  lemma AroundEscape(sign: char, q: string)
    requires IsSign(sign)
    ensures Shortest("\\" + ([sign, '%'] + q)) == [sign] + Shortest(q)
    ensures Dangling("\\" + ([sign, '%'] + q)) <==> Dangling(q)
  {
    var p := "\\" + ([sign, '%'] + q);
    assert p[1] == sign && Rest(p) == "%" + q && ("%" + q)[1..] == q;
    assert Rest("%" + q) == q;
  }

  lemma ShortUntagged(u: string)
    requires |u| < 2
    ensures !IsTagged(u)
  {
    assert |"+*"| == |"-*"| == 2;
    assert !IsTagged("");
    if u != "" {
      assert u[1..] == "";
      assert !Contains(u[1..], "+*") && !Contains(u[1..], "-*");
    }
  }

  lemma TagShows(u: string)
    requires |u| >= 2 && IsSign(u[0]) && u[1] == '*'
    ensures Special(TagPattern(u))
  {
    assert TagPattern(u)[1] == '%';
  }

  lemma {:induction false} TagIsSpecial(u: string)
    requires !Special(TagPattern(u))
    ensures !Special(u) && !IsTagged(u)
    decreases |u|
  {
    if |u| < 2 {
      ShortUntagged(u);
    } else {
      if IsSign(u[0]) && u[1] == '*' { TagShows(u); }
      var t := u[1..];
      assert TagPattern(u) == [u[0]] + TagPattern(t);
      SpecialFirst(TagPattern(u));
      assert TagPattern(u)[1..] == TagPattern(t);
      TagIsSpecial(t);
      SpecialFirst(u);
      UntaggedLonger(u);
    }
  }

  lemma UntaggedLonger(u: string)
    requires |u| >= 2 && !IsTagged(u[1..]) && !(IsSign(u[0]) && u[1] == '*')
    ensures !IsTagged(u)
  {
    assert |"+*"| == |"-*"| == 2;
    assert u[..2] == [u[0], u[1]];
  }

  lemma {:induction false} ShortestPlain(p: string, q: string)
    requires !Special(p)
    ensures Shortest(p + q) == Shortest(p) + Shortest(q)
    ensures |Shortest(p)| == |p| && (Shortest(p) == p <==> '_' !in p)
    decreases |p|
  {
    if p == "" {
      assert p + q == q;
    } else {
      SpecialFirst(p);
      var h, t := p[0], p[1..];
      ShortestPlain(t, q);
      assert (p + q)[0] == h && (p + q)[1..] == t + q;
      Assoc([Sample(p)], Shortest(t), Shortest(q));
      assert p == [h] + t;
    }
  }

  /** Exactly when an address with a tag admits nothing but what differs in the tag: when all else in it stands
      for itself. (A backslash at its end makes a pattern that stands for nothing.) */
  lemma TaggingExactly(u: string, sign: char, d: string)
    requires IsSign(sign)
    ensures (forall s :: Like(s, TagPattern(u + ([sign, '*'] + d))) ==> OnlyTagFree(s, u, sign, d)) <==>
              (Literal(u) && Literal(d)) || Dangling(d)
  {
    var pattern := TagPattern(u + ([sign, '*'] + d));
    PatternAround(u, sign, d);
    PatternKeepsEscapes(u);
    PatternKeepsEscapes(d);
    SameEscapes(TagPattern(d), d);
    ShortestAround(TagPattern(u), sign, TagPattern(d));
    if Dangling(d) {
      forall s { DanglingMatchesNothing(s, pattern); }
    } else if Literal(u) && Literal(d) {
      forall s { LiteralAdmits(u, sign, d, s); }
    } else {
      ShortestMatches(pattern);
      if OnlyTagFree(Shortest(pattern), u, sign, d) { ShortestTagFree(u, sign, d); }
    }
  }

  lemma ShortestTagFree(u: string, sign: char, d: string)
    requires IsSign(sign) && !Dangling(d)
    requires OnlyTagFree(Shortest(TagPattern(u + ([sign, '*'] + d))), u, sign, d)
    ensures Literal(u) && Literal(d)
  {
    var p, q := TagPattern(u), TagPattern(d);
    PatternAround(u, sign, d);
    PatternKeepsEscapes(u);
    PatternKeepsEscapes(d);
    SameEscapes(q, d);
    ShortestAround(p, sign, q);
    ShortestLength(q);
    var t :| Shortest(p + ([sign, '%'] + q)) == u + ([sign] + (t + d));
    TagIsSpecial(u);
    TagIsSpecial(d);
    UntaggedPattern(u);
    UntaggedPattern(d);
    ShortestUnchanged(u, sign, d, t);
  }

  lemma ShortestUnchanged(u: string, sign: char, d: string, t: string)
    requires IsSign(sign) && !Special(u) && !Special(d)
    requires Shortest(u + ([sign, '%'] + d)) == u + ([sign] + (t + d))
    ensures '_' !in u && '_' !in d
  {
    ShortestPlain(u, [sign, '%'] + d);
    AroundNothing(sign, d);
    ShortestPlain(d, "");
    SameParts(Shortest(u), u, sign, Shortest(d), t, d);
  }

  lemma SameParts(a: string, u: string, sign: char, b: string, t: string, d: string)
    requires |a| == |u| && |b| == |d| && a + ([sign] + b) == u + ([sign] + (t + d))
    ensures a == u && b == d
  {
    var s, r := a + ([sign] + b), [sign] + (t + d);
    assert |s| == |u| + |r|;
    assert t == "" && t + d == d;
    assert a == s[..|u|] == u;
    assert [sign] + b == s[|u|..] == r;
    assert b == ([sign] + b)[1..] == r[1..] == d;
  }

  // ----- addresses of somebody else -----

  lemma AdmitsOther(u: string, other: string, d: string)
    requires Like(other, Before(u)) && Literal(d)
    ensures Like(other + ("+t" + d), TagPattern(u + ("+*" + d)))
  {
    var s, i := other + ("+t" + d), |other|;
    UntaggedPattern(d);
    LikeLiteral(d, d);
    assert s[..i] == other && s[i] == '+' && s[i + 2..] == d;
    assert Admitted(s, i, i + 2, u, '+', d);
    TaggedAdmits(u, '+', d, s);
    assert ['+', '*'] == "+*";
  }

  /** In any domain that stands for itself, such as `@example.com`: the tagged `a_b` admits `axb`. */
  lemma UnderscoreWidens(d: string)
    requires Literal(d)
    ensures Like("axb" + ("+t" + d), TagPattern("a_b" + ("+*" + d)))
  {
    AdmitsOther("a_b", "axb", d);
  }

  lemma PercentWidens(d: string)
    requires Literal(d)
    ensures Like("axyb" + ("+t" + d), TagPattern("a%b" + ("+*" + d)))
  {
    AdmitsOther("a%b", "axyb", d);
  }

  /** A backslash is read as an escape, so that the address it is dropped from is admitted. */
  lemma BackslashShifts(d: string)
    requires Literal(d)
    ensures Like("ab" + ("+t" + d), TagPattern("a\\b" + ("+*" + d)))
  {
    AdmitsOther("a\\b", "ab", d);
  }
}
