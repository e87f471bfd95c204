/** Python string operations the models share. */
module Text {

  /** `str.replace` for a nonempty pattern: one pass, leftmost, non-overlapping. */
  function Replace<T(==)>(s: seq<T>, pat: seq<T>, rep: seq<T>): seq<T>
    requires pat != []
    decreases |s|
  {
    if s == [] then []
    else if pat <= s then rep + Replace(s[|pat|..], pat, rep)
    else [s[0]] + Replace(s[1..], pat, rep)
  }

  /** The `in` operator between strings. */
  predicate Contains<T(==)>(s: seq<T>, sub: seq<T>)
    decreases |s|
  {
    sub <= s || (s != [] && Contains(s[1..], sub))
  }

  lemma Assoc<T>(x: seq<T>, y: seq<T>, z: seq<T>)
    ensures x + (y + z) == (x + y) + z
  {
  }

  /** Replacing a single character rewrites each occurrence on its own. */
  lemma ReplaceFirst<T>(h: T, t: seq<T>, c: T, rep: seq<T>)
    ensures Replace([h] + t, [c], rep) == (if h == c then rep else [h]) + Replace(t, [c], rep)
  {
    var s := [h] + t;
    assert s[0] == h && s[1..] == t;
    if h == c {
      assert [c] <= s;
    } else {
      assert [c][0] != s[0];
    }
  }

  lemma {:induction false} ReplaceAppend<T>(a: seq<T>, b: seq<T>, c: T, rep: seq<T>)
    ensures Replace(a + b, [c], rep) == Replace(a, [c], rep) + Replace(b, [c], rep)
  {
    if a == [] {
      assert a + b == b;
    } else {
      var h, t := a[0], a[1..];
      assert a == [h] + t;
      Assoc([h], t, b);
      ReplaceFirst(h, t, c, rep);
      ReplaceFirst(h, t + b, c, rep);
      ReplaceAppend(t, b, c, rep);
      Assoc(if h == c then rep else [h], Replace(t, [c], rep), Replace(b, [c], rep));
    }
  }

  lemma {:induction false} ReplaceAbsent<T>(s: seq<T>, c: T, rep: seq<T>)
    requires c !in s
    ensures Replace(s, [c], rep) == s
  {
    if s != [] {
      assert s[0] in s;
      ReplaceAbsent(s[1..], c, rep);
    }
  }

  /** The number a string of decimal digits stands for. */
  function Decimal(s: string): int {
    if s == "" then 0 else Decimal(s[..|s| - 1]) * 10 + (s[|s| - 1] as int - '0' as int)
  }
}
