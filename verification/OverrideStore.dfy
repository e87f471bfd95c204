/** The settings pages: a server stores only the values that differ from the form's defaults. */
module OverrideStore {
  import opened Wrappers
  import opened Text

  datatype Data = Nothing | Text(text: string) | Number(number: int)

  /** A form field as submitted: one value, or a list of choices. Its name is the stored name. */
  datatype Field =
    | Single(name: string, data: Data, default: Data)
    | Multi(name: string, choices: seq<string>, defaults: Option<seq<string>>)

  type Store = map<string, string>

  const TOKEN := "csrf_token"
  const SCANNERS := "virusscanners"
  const AUTO := "auto"
  const NONE := "none"

  // ----- stored text -----

  function Digits(n: nat): string {
    if n < 10 then [('0' as int + n) as char] else Digits(n / 10) + [('0' as int + n % 10) as char]
  }

  function Render(d: Data): string {
    match d
    case Nothing => ""
    case Text(s) => s
    case Number(n) => if n < 0 then "-" + Digits(-n) else Digits(n)
  }

  function Join(xs: seq<string>): string {
    if xs == [] then "" else if |xs| == 1 then xs[0] else xs[0] + "," + Join(xs[1..])
  }

  /** A list as a PostgreSQL array literal. */
  function RenderList(xs: seq<string>): string { "{" + Join(xs) + "}" }

  predicate IsBrace(c: char) { c == '{' || c == '}' }

  function StripLeft(s: string): string { if s != "" && IsBrace(s[0]) then StripLeft(s[1..]) else s }

  function StripRight(s: string): string {
    if s != "" && IsBrace(s[|s| - 1]) then StripRight(s[..|s| - 1]) else s
  }

  function Split(s: string): (parts: seq<string>)
    ensures parts != []
  {
    if s == "" then [""]
    else
      var rest := Split(s[1..]);
      if s[0] == ',' then [""] + rest else [[s[0]] + rest[0]] + rest[1..]
  }

  /** The stored text read as a list again. */
  function ParseList(s: string): seq<string> { Split(StripRight(StripLeft(s))) }

  // ----- one field -----

  predicate Truthy(d: Data) { !d.Nothing? && d != Text("") && d != Number(0) }

  /** Removes the first occurrence. */
  function Remove(xs: seq<string>, x: string): seq<string> {
    if xs == [] then [] else if xs[0] == x then xs[1..] else [xs[0]] + Remove(xs[1..], x)
  }

  /** With several scanners chosen, automatic and no scanning are dropped. */
  function Checked(name: string, xs: seq<string>): seq<string> {
    if name == SCANNERS && |xs| > 1 then
      var ys := if AUTO in xs then Remove(xs, AUTO) else xs;
      if NONE in ys then Remove(ys, NONE) else ys
    else xs
  }

  predicate Skipped(f: Field) { f.Single? && (!Truthy(f.data) || f.name == TOKEN) }

  /** The stored text, read back as the field's type, equals what was submitted. A number never does. */
  predicate StoredEquals(v: string, f: Field) {
    match f
    case Single(_, d, _) => d == Text(v)
    case Multi(_, xs, _) => ParseList(v) == xs
  }

  predicate WorthStoring(f: Field) {
    match f
    case Single(_, d, def) => d != def
    case Multi(_, xs, def) => xs != [] && def != Some(xs)
  }

  function Submitted(f: Field): string {
    match f
    case Single(_, d, _) => Render(d)
    case Multi(name, xs, _) => RenderList(Checked(name, xs))
  }

  function SubmitOne(st: Store, f: Field): (Store, bool) {
    if Skipped(f) then (st, false)
    else if f.name !in st then
      if WorthStoring(f) then (st[f.name := Submitted(f)], true) else (st, false)
    else if StoredEquals(st[f.name], f) then (st, false)
    else if WorthStoring(f) then (st[f.name := Submitted(f)], true)
    else (st - {f.name}, true)
  }

  function Submit(st: Store, form: seq<Field>): (Store, bool)
    decreases |form|
  {
    if form == [] then (st, false)
    else
      var (st1, u1) := SubmitOne(st, form[0]);
      var (st2, u2) := Submit(st1, form[1..]);
      (st2, u1 || u2)
  }

  // ----- the page -----

  class SettingsPage {
    var stored: Store

    constructor (stored: Store)
      ensures this.stored == stored
    {
      this.stored := stored;
    }

    /** Drops entries from the submitted list in place. */
    method CheckField(name: string, xs: seq<string>) returns (ys: seq<string>)
      ensures ys == Checked(name, xs)
    {
      ys := xs;
      if name == SCANNERS && |ys| > 1 {
        if AUTO in ys { ys := Remove(ys, AUTO); }
        if NONE in ys { ys := Remove(ys, NONE); }
      }
    }

    method Value(f: Field) returns (v: string)
      ensures v == Submitted(f)
    {
      match f
      case Single(_, d, _) => v := Render(d);
      case Multi(name, xs, _) =>
        var ys := CheckField(name, xs);
        v := RenderList(ys);
    }

    method Section(form: seq<Field>) returns (updated: bool)
      modifies this
      ensures (stored, updated) == Submit(old(stored), form)
      ensures NamesDistinct(form) ==>
                && (forall i :: 0 <= i < |form| ==> TakesEffect(old(stored), stored, form[i]))
                && (forall n :: (forall i :: 0 <= i < |form| ==> form[i].name != n) ==>
                      Entry(stored, n) == Entry(old(stored), n))
                && (updated <==> exists i :: 0 <= i < |form| && Updates(old(stored), form[i]))
    {
      if NamesDistinct(form) { FormTakesEffect(stored, form); }
      updated := false;
      assert form[0..] == form;
      for i := 0 to |form|
        invariant var (st, u) := Submit(stored, form[i..]);
                  Submit(old(stored), form) == (st, updated || u)
      {
        var f := form[i];
        assert form[i..][1..] == form[i + 1..];
        if f.Multi? || (Truthy(f.data) && f.name != TOKEN) {
          if f.name !in stored {
            if WorthStoring(f) {
              var v := Value(f);
              stored := stored[f.name := v];
              updated := true;
            }
          } else {
            if !StoredEquals(stored[f.name], f) {
              if WorthStoring(f) {
                var v := Value(f);
                stored := stored[f.name := v];
              } else {
                stored := stored - {f.name};
              }
              updated := true;
            }
          }
        }
      }
    }
  }

  // ----- reading lists back -----

  /** A choice that needs no quoting in an array literal. */
  predicate PlainChoice(x: string) { x != "" && forall i :: 0 <= i < |x| ==> x[i] != ',' && !IsBrace(x[i]) }

  predicate PlainChoices(xs: seq<string>) { forall i :: 0 <= i < |xs| ==> PlainChoice(xs[i]) }

  lemma {:induction false} SplitPlain(x: string)
    requires forall i :: 0 <= i < |x| ==> x[i] != ','
    ensures Split(x) == [x]
  {
    if x != "" {
      SplitPlain(x[1..]);
      assert Split(x[1..])[1..] == [];
      assert [x[0]] + x[1..] == x;
    }
  }

  lemma {:induction false} SplitFirst(x: string, rest: string)
    requires forall i :: 0 <= i < |x| ==> x[i] != ','
    ensures Split(x + "," + rest) == [x] + Split(rest)
  {
    var s := x + "," + rest;
    if x == "" {
      assert s[1..] == rest;
    } else {
      SplitFirst(x[1..], rest);
      assert s[1..] == x[1..] + "," + rest;
      assert ([x[1..]] + Split(rest))[1..] == Split(rest);
      assert [x[0]] + x[1..] == x;
    }
  }

  lemma {:induction false} SplitJoin(xs: seq<string>)
    requires xs != [] && PlainChoices(xs)
    ensures Split(Join(xs)) == xs
  {
    if |xs| == 1 {
      SplitPlain(xs[0]);
    } else {
      SplitJoin(xs[1..]);
      SplitFirst(xs[0], Join(xs[1..]));
    }
  }

  /** The joined text neither begins nor ends with a brace. */
  lemma {:induction false} JoinEnds(xs: seq<string>)
    requires xs != [] && PlainChoices(xs)
    ensures var s := Join(xs); s != "" && !IsBrace(s[0]) && !IsBrace(s[|s| - 1])
  {
    if |xs| > 1 {
      JoinEnds(xs[1..]);
    }
  }

  lemma ParseRender(xs: seq<string>)
    requires xs != [] && PlainChoices(xs)
    ensures ParseList(RenderList(xs)) == xs
  {
    var s := Join(xs);
    JoinEnds(xs);
    assert RenderList(xs)[1..] == s + "}";
    assert StripLeft(s + "}") == s + "}";
    assert StripLeft(RenderList(xs)) == s + "}";
    assert (s + "}")[..|s|] == s;
    assert StripRight(s) == s;
    SplitJoin(xs);
  }

  lemma ParseEmpty()
    ensures ParseList(RenderList([])) == [""]
  {
    assert RenderList([]) == "{}";
    assert "{}"[1..] == "}";
    assert "}"[1..] == "";
    assert StripLeft("}") == "";
    assert StripLeft("{}") == "";
  }

  // ----- what a submit achieves -----

  predicate Distinct(xs: seq<string>) { forall i, j :: 0 <= i < j < |xs| ==> xs[i] != xs[j] }

  /** A field of these forms: nonempty plain choices, each any number of times; a default, if any, of the
      field's own type; the scanners default to automatic. */
  predicate Proper(f: Field) {
    match f
    case Single(_, d, def) => def.Nothing? || (d.Number? == def.Number? && d.Text? == def.Text?)
    case Multi(name, xs, def) =>
      && PlainChoices(xs)
      && (def.Some? ==> def.value != [] && PlainChoices(def.value))
      && (name == SCANNERS ==> def == Some([AUTO]))
  }

  /** What a field amounts to: the stored text, or else the default's. */
  function Effective(st: Store, f: Field): string {
    if f.name in st then st[f.name]
    else
      match f
      case Single(_, _, def) => Render(def)
      case Multi(_, _, def) => if def.Some? then RenderList(def.value) else RenderList([])
  }

  function DefaultText(f: Field): Option<string> {
    match f
    case Single(_, _, def) => Some(Render(def))
    case Multi(_, _, def) => if def.Some? then Some(RenderList(def.value)) else None
  }

  predicate HoldsDefault(st: Store, f: Field) { f.name in st && Some(st[f.name]) == DefaultText(f) }

  predicate StoredFrom(f: Field, xs: seq<string>, v: string) {
    xs != [] && PlainChoices(xs) && v == RenderList(Checked(f.name, xs))
  }

  /** A stored list is one the page has stored. */
  ghost predicate OwnMade(st: Store, f: Field) {
    f.Multi? && f.name in st ==> exists xs :: StoredFrom(f, xs, st[f.name])
  }

  /** Automatic is chosen twice, with at most one more choice, of none. */
  predicate TwiceAuto(xs: seq<string>) {
    multiset(xs) == multiset{AUTO, AUTO} || multiset(xs) == multiset{AUTO, AUTO, NONE}
  }

  /** The page holds the submitted text to be stored already. */
  predicate FoundEqual(st: Store, f: Field) { f.name in st && StoredEquals(st[f.name], f) }

  /** The submitted list is stored to the letter, though the check would not leave it so, or though it is
      the default. */
  predicate Stale(st: Store, f: Field) {
    && f.Multi? && f.choices != [] && f.name in st && st[f.name] == RenderList(f.choices)
    && (Checked(f.name, f.choices) != f.choices || f.defaults == Some(f.choices))
  }

  /** A list is stored less what the check removes; an empty one, or the default's, is not stored. */
  predicate AsSubmitted(st: Store, f: Field)
    requires f.Multi?
  {
    if WorthStoring(f) then f.name in st && st[f.name] == RenderList(Checked(f.name, f.choices)) else f.name !in st
  }

  /** Exactly when a single value takes effect: it is not blank, or it is in effect already. A zero
      counts as blank. */
  lemma SingleTakesEffect(st: Store, f: Field)
    requires f.Single? && f.name != TOKEN
    ensures Effective(SubmitOne(st, f).0, f) == Render(f.data) <==>
              (f.data != Nothing && f.data != Text("") && f.data != Number(0)) || Effective(st, f) == Render(f.data)
  {
  }

  // ----- scanner lists -----

  lemma {:induction false} RemoveMultiset(xs: seq<string>, x: string)
    ensures multiset(Remove(xs, x)) == multiset(xs) - multiset{x}
  {
    if xs != [] {
      RemoveMultiset(xs[1..], x);
      assert xs == [xs[0]] + xs[1..];
      if xs[0] != x {
        assert multiset([xs[0]] + Remove(xs[1..], x)) == multiset{xs[0]} + multiset(Remove(xs[1..], x));
      }
    }
  }

  lemma RemovePresent(xs: seq<string>, x: string)
    ensures multiset(if x in xs then Remove(xs, x) else xs) == multiset(xs) - multiset{x}
  {
    RemoveMultiset(xs, x);
    assert x in xs <==> x in multiset(xs);
  }

  lemma CheckedMultiset(xs: seq<string>)
    requires |xs| > 1
    ensures multiset(Checked(SCANNERS, xs)) == multiset(xs) - multiset{AUTO} - multiset{NONE}
  {
    RemovePresent(xs, AUTO);
    RemovePresent(if AUTO in xs then Remove(xs, AUTO) else xs, NONE);
  }

  lemma OneLeft<T>(m: multiset<T>, a: T, n: T)
    requires a != n
    ensures m - multiset{a} - multiset{n} == multiset{a} <==> m == multiset{a, a} || m == multiset{a, a, n}
  {
    if m - multiset{a} - multiset{n} == multiset{a} {
      assert m[a] == 2 && m[n] <= 1;
      assert forall x :: x != a && x != n ==> m[x] == (m - multiset{a} - multiset{n})[x];
      if m[n] == 0 {
        assert m == multiset{a, a};
      } else {
        assert m == multiset{a, a, n};
      }
    }
  }

  lemma SingletonOf(ys: seq<string>, x: string)
    ensures ys == [x] <==> multiset(ys) == multiset{x}
  {
    if multiset(ys) == multiset{x} {
      assert |multiset(ys)| == |ys| == 1;
      assert ys[0] in multiset(ys);
    }
  }

  /** Exactly the selections, other than the default itself, that the scanner check turns into it. */
  lemma CheckedIsDefault(xs: seq<string>)
    ensures xs != [AUTO] && Checked(SCANNERS, xs) == [AUTO] <==> TwiceAuto(xs)
  {
    assert |multiset(xs)| == |xs|;
    assert |multiset{AUTO, AUTO}| == 2 && |multiset{AUTO, AUTO, NONE}| == 3;
    if |xs| > 1 {
      CheckedMultiset(xs);
      OneLeft(multiset(xs), AUTO, NONE);
      SingletonOf(Checked(SCANNERS, xs), AUTO);
    }
  }

  lemma DistinctCounts(xs: seq<string>, x: string)
    requires Distinct(xs)
    ensures multiset(xs)[x] <= 1
  {
    if xs != [] {
      DistinctCounts(xs[1..], x);
      assert xs == [xs[0]] + xs[1..];
      if xs[0] == x {
        assert x !in xs[1..];
      }
    }
  }

  lemma {:induction false} PlainRemoved(xs: seq<string>, x: string)
    requires PlainChoices(xs)
    ensures PlainChoices(Remove(xs, x))
  {
    if xs != [] {
      PlainRemoved(xs[1..], x);
    }
  }

  lemma PlainChecked(name: string, xs: seq<string>)
    requires PlainChoices(xs)
    ensures PlainChoices(Checked(name, xs))
  {
    PlainRemoved(xs, AUTO);
    PlainRemoved(xs, NONE);
    PlainRemoved(Remove(xs, AUTO), NONE);
  }

  lemma CheckedAgain(name: string, xs: seq<string>)
    requires Distinct(xs)
    ensures Checked(name, Checked(name, xs)) == Checked(name, xs)
  {
    if name == SCANNERS && |xs| > 1 {
      var ys := Checked(name, xs);
      CheckedMultiset(xs);
      DistinctCounts(xs, AUTO);
      DistinctCounts(xs, NONE);
      assert AUTO !in multiset(ys) && NONE !in multiset(ys);
      assert AUTO !in ys && NONE !in ys;
    }
  }

  /** What the page stores for a list reads back as that list, or as one blank when nothing is left. */
  lemma StoredReads(f: Field, xs: seq<string>, v: string)
    requires StoredFrom(f, xs, v)
    ensures ParseList(v) == if Checked(f.name, xs) == [] then [""] else Checked(f.name, xs)
  {
    PlainChecked(f.name, xs);
    if Checked(f.name, xs) == [] {
      ParseEmpty();
    } else {
      ParseRender(Checked(f.name, xs));
    }
  }

  lemma ListsApart(a: seq<string>, b: seq<string>)
    requires PlainChoices(a) && PlainChoices(b) && b != []
    ensures RenderList(a) == RenderList(b) <==> a == b
  {
    ParseRender(b);
    assert PlainChoice(b[0]);
    if a == [] {
      ParseEmpty();
    } else {
      ParseRender(a);
    }
  }

  lemma ListStoredIsDefault(f: Field)
    requires f.Multi? && Proper(f) && WorthStoring(f)
    ensures Some(Submitted(f)) == DefaultText(f) <==> f.name == SCANNERS && TwiceAuto(f.choices)
  {
    PlainChecked(f.name, f.choices);
    if f.defaults.Some? {
      ListsApart(Checked(f.name, f.choices), f.defaults.value);
    }
    if f.name == SCANNERS {
      CheckedIsDefault(f.choices);
    }
  }

  lemma TwiceAutoIsStored(f: Field)
    requires f.Multi? && Proper(f) && f.name == SCANNERS && TwiceAuto(f.choices)
    ensures WorthStoring(f)
  {
    CheckedIsDefault(f.choices);
    assert |multiset(f.choices)| == |f.choices|;
  }

  /** A list found equal is stored to the letter. */
  lemma FoundToTheLetter(st: Store, f: Field)
    requires f.Multi? && Proper(f) && OwnMade(st, f)
    ensures FoundEqual(st, f) <==> f.choices != [] && f.name in st && st[f.name] == RenderList(f.choices)
  {
    if f.name in st && f.choices != [] {
      var xs :| StoredFrom(f, xs, st[f.name]);
      StoredReads(f, xs, st[f.name]);
      PlainChecked(f.name, xs);
      ListsApart(Checked(f.name, xs), f.choices);
      assert PlainChoice(f.choices[0]);
    }
  }

  // ----- numbers as text -----

  predicate IsDigits(s: string) {
    s != "" && (|s| > 1 ==> s[0] != '0') && forall i :: 0 <= i < |s| ==> '0' <= s[i] <= '9'
  }

  lemma {:induction false} DigitsRead(n: nat)
    ensures Decimal(Digits(n)) == n && IsDigits(Digits(n)) && (n > 0 ==> Digits(n)[0] != '0')
  {
    if n >= 10 {
      DigitsRead(n / 10);
      assert Digits(n)[..|Digits(n)| - 1] == Digits(n / 10);
    }
  }

  /** The text is the number written out: a sign if it is negative, and digits with no zero in front. */
  predicate Reads(v: string, n: int) {
    if n < 0 then v != "" && v[0] == '-' && IsDigits(v[1..]) && Decimal(v[1..]) == -n
    else IsDigits(v) && Decimal(v) == n
  }

  lemma NumberReads(n: int)
    ensures Reads(Render(Number(n)), n)
  {
    DigitsRead(if n < 0 then -n else n);
    assert n < 0 ==> Render(Number(n))[1..] == Digits(-n);
  }

  lemma RenderInjective(d: Data, e: Data)
    requires d.Number? == e.Number? && d.Text? == e.Text? && Render(d) == Render(e)
    ensures d == e
  {
    if d.Number? {
      DigitsRead(if d.number < 0 then -d.number else d.number);
      DigitsRead(if e.number < 0 then -e.number else e.number);
      assert d.number < 0 ==> Render(d)[0] == '-' && Render(d)[1..] == Digits(-d.number);
      assert e.number < 0 ==> Render(e)[0] == '-' && Render(e)[1..] == Digits(-e.number);
    }
  }

  lemma SingleStoredIsNotDefault(f: Field)
    requires f.Single? && Proper(f) && !Skipped(f) && WorthStoring(f)
    ensures Some(Submitted(f)) != DefaultText(f)
  {
    if Render(f.data) == Render(f.default) {
      if f.default.Nothing? {
        if f.data.Number? && f.data.number >= 0 { DigitsRead(f.data.number); }
      } else {
        RenderInjective(f.data, f.default);
      }
    }
  }

  /** Where no default is stored, a submit stores one exactly in this case: the scanners are submitted with
      automatic twice, and that list is not what is stored already. */
  lemma DefaultStoredExactly(st: Store, f: Field)
    requires Proper(f) && !HoldsDefault(st, f)
    ensures HoldsDefault(SubmitOne(st, f).0, f) <==>
              f.Multi? && f.name == SCANNERS && TwiceAuto(f.choices) && !FoundEqual(st, f)
  {
    if f.Multi? {
      if WorthStoring(f) { ListStoredIsDefault(f); }
      if f.name == SCANNERS && TwiceAuto(f.choices) { TwiceAutoIsStored(f); }
    } else if !Skipped(f) && WorthStoring(f) {
      SingleStoredIsNotDefault(f);
    }
  }

  /** Exactly when a submitted list takes effect as stated. */
  lemma ListTakesEffect(st: Store, f: Field)
    requires f.Multi? && Proper(f) && OwnMade(st, f)
    ensures AsSubmitted(SubmitOne(st, f).0, f) <==> !Stale(st, f)
    ensures OwnMade(SubmitOne(st, f).0, f)
  {
    FoundToTheLetter(st, f);
    PlainChecked(f.name, f.choices);
    if f.choices != [] {
      ListsApart(Checked(f.name, f.choices), f.choices);
      if WorthStoring(f) && !FoundEqual(st, f) { assert StoredFrom(f, f.choices, Submitted(f)); }
    }
  }

  /** Choices that are not repeated, here or when the stored list was submitted, do neither harm. */
  lemma OnceEach(st: Store, f: Field)
    requires f.Multi? && Proper(f) && Distinct(f.choices) && !HoldsDefault(st, f)
    requires f.name in st ==> exists xs :: Distinct(xs) && StoredFrom(f, xs, st[f.name])
    ensures !TwiceAuto(f.choices) && !Stale(st, f)
  {
    DistinctCounts(f.choices, AUTO);
    if f.name in st && f.choices != [] {
      var xs :| Distinct(xs) && StoredFrom(f, xs, st[f.name]);
      CheckedAgain(f.name, xs);
      PlainChecked(f.name, xs);
      ListsApart(Checked(f.name, xs), f.choices);
    }
  }

  /** Automatic chosen twice is stored, as the default. */
  lemma TwiceAutoStored()
    ensures SubmitOne(map[], Multi(SCANNERS, [AUTO, AUTO], Some([AUTO]))).0 == map[SCANNERS := RenderList([AUTO])]
  {
    assert Checked(SCANNERS, [AUTO, AUTO]) == [AUTO];
  }

  /** Automatic chosen three times, then twice: the second submit leaves what the first has stored. */
  lemma ThriceThenTwice()
    ensures var twice := Multi(SCANNERS, [AUTO, AUTO], Some([AUTO]));
            var st := SubmitOne(map[], Multi(SCANNERS, [AUTO, AUTO, AUTO], Some([AUTO]))).0;
            st == map[SCANNERS := RenderList([AUTO, AUTO])] && SubmitOne(st, twice).0 == st && Stale(st, twice)
  {
    assert Remove([AUTO, AUTO, AUTO], AUTO) == [AUTO, AUTO];
    assert Checked(SCANNERS, [AUTO, AUTO, AUTO]) == [AUTO, AUTO];
    assert Checked(SCANNERS, [AUTO, AUTO]) == [AUTO];
    ParseRender([AUTO, AUTO]);
  }

  // ----- a whole form -----

  predicate NamesDistinct(form: seq<Field>) { forall i, j :: 0 <= i < j < |form| ==> form[i].name != form[j].name }

  function Entry(st: Store, n: string): Option<string> { if n in st then Some(st[n]) else None }

  lemma OneDependsOnOwnEntry(st: Store, st': Store, f: Field)
    requires Entry(st, f.name) == Entry(st', f.name)
    ensures Entry(SubmitOne(st, f).0, f.name) == Entry(SubmitOne(st', f).0, f.name)
    ensures forall n :: n != f.name ==> Entry(SubmitOne(st, f).0, n) == Entry(st, n)
  {
  }

  lemma {:induction false} FieldsApart(st: Store, form: seq<Field>)
    requires NamesDistinct(form)
    ensures forall i :: 0 <= i < |form| ==>
              Entry(Submit(st, form).0, form[i].name) == Entry(SubmitOne(st, form[i]).0, form[i].name)
    ensures forall n :: (forall i :: 0 <= i < |form| ==> form[i].name != n) ==>
              Entry(Submit(st, form).0, n) == Entry(st, n)
    decreases |form|
  {
    if form != [] {
      var st1, rest := SubmitOne(st, form[0]).0, form[1..];
      FieldsApart(st1, rest);
      OneDependsOnOwnEntry(st, st, form[0]);
      forall i | 0 <= i < |form|
        ensures Entry(Submit(st, form).0, form[i].name) == Entry(SubmitOne(st, form[i]).0, form[i].name)
      {
        if i > 0 {
          assert rest[i - 1] == form[i];
          OneDependsOnOwnEntry(st, st1, form[i]);
        }
      }
      forall n | forall i :: 0 <= i < |form| ==> form[i].name != n
        ensures Entry(Submit(st, form).0, n) == Entry(st, n)
      {
        assert form[0].name != n;
        assert forall i :: 0 <= i < |rest| ==> rest[i] == form[i + 1];
      }
    }
  }

  lemma EntryDecides(st: Store, st': Store, f: Field)
    requires Entry(st, f.name) == Entry(st', f.name)
    ensures Effective(st, f) == Effective(st', f) && (HoldsDefault(st, f) <==> HoldsDefault(st', f))
    ensures OwnMade(st, f) <==> OwnMade(st', f)
    ensures f.Multi? ==> (AsSubmitted(st, f) <==> AsSubmitted(st', f))
  {
  }

  /** What a submit makes of one setting, case by case: blank values and the token leave it; text and numbers
      take effect, the default by not being stored; and so does a list, unless it reads as stored already. */
  predicate TakesEffect(st: Store, st': Store, f: Field) {
    match f
    case Single(name, data, default) =>
      if name == "csrf_token" || data == Nothing || data == Text("") || data == Number(0) then
        (name in st' <==> name in st) && (name in st ==> st'[name] == st[name])
      else if data == default then
        (name in st' <==> name in st && data == Text(st[name])) && (name in st' ==> st'[name] == st[name])
      else
        name in st' && (data.Text? ==> st'[name] == data.text) && (data.Number? ==> Reads(st'[name], data.number))
    case Multi(name, choices, defaults) =>
      if name in st && ParseList(st[name]) == choices then name in st' && st'[name] == st[name]
      else if choices == [] || defaults == Some(choices) then name !in st'
      else name in st' && st'[name] == RenderList(Checked(name, choices))
  }

  /** Whether a field makes the page report an update. */
  predicate Updates(st: Store, f: Field) {
    match f
    case Single(name, data, default) =>
      && name != "csrf_token" && data != Nothing && data != Text("") && data != Number(0)
      && if name in st then data != Text(st[name]) else data != default
    case Multi(name, choices, defaults) =>
      if name in st then ParseList(st[name]) != choices else choices != [] && defaults != Some(choices)
  }

  lemma OneTakesEffect(st: Store, f: Field)
    ensures TakesEffect(st, SubmitOne(st, f).0, f) && (SubmitOne(st, f).1 <==> Updates(st, f))
  {
    if f.Single? && f.data.Number? { NumberReads(f.data.number); }
  }

  lemma {:induction false} UpdatedMeans(st: Store, form: seq<Field>)
    requires NamesDistinct(form)
    ensures Submit(st, form).1 <==> exists i :: 0 <= i < |form| && Updates(st, form[i])
    decreases |form|
  {
    if form != [] {
      var st1, rest := SubmitOne(st, form[0]).0, form[1..];
      UpdatedMeans(st1, rest);
      OneTakesEffect(st, form[0]);
      OneDependsOnOwnEntry(st, st, form[0]);
      forall i | 0 <= i < |rest|
        ensures rest[i] == form[i + 1] && (Updates(st1, rest[i]) <==> Updates(st, form[i + 1]))
      {
        assert Entry(st1, rest[i].name) == Entry(st, rest[i].name);
      }
      if i :| 0 <= i < |form| && Updates(st, form[i]) {
        assert i > 0 ==> Updates(st1, rest[i - 1]);
      }
    }
  }

  /** A whole form does all of that to its settings, and nothing to the rest. */
  lemma FormTakesEffect(st: Store, form: seq<Field>)
    requires NamesDistinct(form)
    ensures var (st', updated) := Submit(st, form);
            && (forall i :: 0 <= i < |form| ==> TakesEffect(st, st', form[i]))
            && (forall n :: (forall i :: 0 <= i < |form| ==> form[i].name != n) ==> Entry(st', n) == Entry(st, n))
            && (updated <==> exists i :: 0 <= i < |form| && Updates(st, form[i]))
  {
    var st' := Submit(st, form).0;
    FieldsApart(st, form);
    UpdatedMeans(st, form);
    forall i | 0 <= i < |form|
      ensures TakesEffect(st, st', form[i])
    {
      OneTakesEffect(st, form[i]);
      SameEffect(st, SubmitOne(st, form[i]).0, st', form[i]);
    }
  }

  lemma SameEffect(st: Store, st1: Store, st2: Store, f: Field)
    requires Entry(st1, f.name) == Entry(st2, f.name)
    ensures TakesEffect(st, st1, f) <==> TakesEffect(st, st2, f)
  {
  }

  /** Of several scanners the first `auto` and then the first `none` are removed. */
  lemma CheckedMeans(xs: seq<string>)
    ensures |xs| <= 1 ==> Checked("virusscanners", xs) == xs
    ensures |xs| > 1 ==> Checked("virusscanners", xs) == Remove(Remove(xs, "auto"), "none")
    ensures forall name :: name != "virusscanners" ==> Checked(name, xs) == xs
  {
    NothingToRemove(xs, AUTO);
    NothingToRemove(Remove(xs, AUTO), NONE);
  }

  lemma {:induction false} NothingToRemove(xs: seq<string>, x: string)
    ensures x !in xs ==> Remove(xs, x) == xs
  {
    if xs != [] { NothingToRemove(xs[1..], x); }
  }

  lemma {:induction false} FirstRemoved(a: seq<string>, x: string, b: seq<string>)
    requires x !in a
    ensures Remove(a + [x] + b, x) == a + b
  {
    var xs := a + [x] + b;
    if a == [] {
      assert xs[1..] == b;
    } else {
      assert xs[1..] == a[1..] + [x] + b;
      FirstRemoved(a[1..], x, b);
    }
  }

  /** A list is stored in braces, its choices with commas between. */
  lemma ListMeans(x: string, ys: seq<string>)
    ensures RenderList([]) == "{}" && RenderList([x]) == "{" + x + "}"
    ensures ys != [] ==> RenderList([x] + ys) == "{" + x + "," + RenderList(ys)[1..]
  {
    if ys != [] {
      assert ([x] + ys)[1..] == ys;
      assert "{" + (x + "," + Join(ys)) + "}" == "{" + x + "," + (Join(ys) + "}");
    }
  }

  /** A submitted form, field by field: skipped fields stay; every single value that is not blank takes
      effect; a list takes effect exactly if it is not stale; a default comes to be stored exactly in the one
      case stated. */
  lemma SubmitTakesEffect(st: Store, form: seq<Field>, i: nat)
    requires NamesDistinct(form) && i < |form| && Proper(form[i]) && OwnMade(st, form[i])
    ensures var f, st' := form[i], Submit(st, form).0;
            && (f.Single? && (f.name == "csrf_token" || f.data in [Nothing, Text(""), Number(0)]) ==>
                  Entry(st', f.name) == Entry(st, f.name))
            && (f.Single? && f.name != "csrf_token" && f.data !in [Nothing, Text(""), Number(0)] ==>
                  Effective(st', f) == Render(f.data))
            && (f.Multi? ==> (AsSubmitted(st', f) <==> !Stale(st, f)))
            && (!HoldsDefault(st, f) ==>
                  (HoldsDefault(st', f) <==>
                     f.Multi? && f.name == SCANNERS && TwiceAuto(f.choices) && !FoundEqual(st, f)))
            && OwnMade(st', f)
  {
    var f := form[i];
    FieldsApart(st, form);
    EntryDecides(Submit(st, form).0, SubmitOne(st, f).0, f);
    if !HoldsDefault(st, f) { DefaultStoredExactly(st, f); }
    if f.Single? {
      if !Skipped(f) { SingleTakesEffect(st, f); }
    } else {
      ListTakesEffect(st, f);
    }
  }

  /** A setting that no field of the form stands for, or only skipped ones, stays as it is. */
  lemma {:induction false} SkippedUnchanged(st: Store, form: seq<Field>, n: string)
    requires forall i :: 0 <= i < |form| && form[i].name == n ==> Skipped(form[i])
    ensures Entry(Submit(st, form).0, n) == Entry(st, n)
    decreases |form|
  {
    if form != [] {
      SkippedUnchanged(SubmitOne(st, form[0]).0, form[1..], n);
    }
  }

  lemma OneAgain(st: Store, f: Field)
    ensures SubmitOne(SubmitOne(st, f).0, f).0 == SubmitOne(st, f).0
  {
  }

  /** Submitting the same form again leaves the store as it is. */
  lemma SubmitAgain(st: Store, form: seq<Field>)
    requires NamesDistinct(form)
    ensures Submit(Submit(st, form).0, form).0 == Submit(st, form).0
  {
    var st1 := Submit(st, form).0;
    var st2 := Submit(st1, form).0;
    FieldsApart(st, form);
    FieldsApart(st1, form);
    forall n
      ensures Entry(st2, n) == Entry(st1, n)
    {
      if i :| 0 <= i < |form| && form[i].name == n {
        OneDependsOnOwnEntry(st1, SubmitOne(st, form[i]).0, form[i]);
        OneAgain(st, form[i]);
      }
    }
    SameEntries(st1, st2);
  }

  lemma SameEntries(a: Store, b: Store)
    requires forall n :: Entry(a, n) == Entry(b, n)
    ensures a == b
  {
    assert forall n :: n in a ==> Entry(a, n) == Entry(b, n);
    assert forall n :: n in b ==> Entry(a, n) == Entry(b, n);
  }

  /** Yet a stored number is reported as updated every time it is submitted, stored text never
      being equal to a number. */
  lemma NumberAlwaysUpdated(st: Store, f: Field)
    requires f.Single? && f.data.Number? && f.name != TOKEN && f.name in st
    ensures SubmitOne(st, f).1 <==> f.data != Number(0)
  {
  }

  // ----- submit after submit -----

  /** Forms of distinct, proper fields, in which the setting of `f` always has the same kind and default. */
  predicate FormFor(form: seq<Field>, f: Field) {
    && NamesDistinct(form)
    && forall i :: 0 <= i < |form| ==>
         Proper(form[i])
         && (form[i].name == f.name ==> form[i].Multi? == f.Multi? && DefaultText(form[i]) == DefaultText(f))
  }

  /** The form has the scanners submitted with automatic twice, and that is not found stored. */
  predicate StoresDefault(st: Store, form: seq<Field>, f: Field) {
    f.Multi? && f.name == SCANNERS
    && exists i :: 0 <= i < |form| && form[i].name == f.name && form[i].Multi? && TwiceAuto(form[i].choices)
                   && !FoundEqual(st, form[i])
  }

  lemma FormStoresDefault(st: Store, form: seq<Field>, f: Field)
    requires FormFor(form, f) && !HoldsDefault(st, f)
    ensures HoldsDefault(Submit(st, form).0, f) <==> StoresDefault(st, form, f)
  {
    if i :| 0 <= i < |form| && form[i].name == f.name {
      FieldsApart(st, form);
      DefaultStoredExactly(st, form[i]);
      EntryDecides(Submit(st, form).0, SubmitOne(st, form[i]).0, form[i]);
      assert forall j :: 0 <= j < |form| && form[j].name == f.name ==> j == i;
    } else {
      SkippedUnchanged(st, form, f.name);
      EntryDecides(Submit(st, form).0, st, f);
    }
  }

  /** No default is stored for the setting, before and after every submit. */
  predicate NeverHolds(st: Store, forms: seq<seq<Field>>, f: Field)
    decreases |forms|
  {
    !HoldsDefault(st, f) && (forms == [] || NeverHolds(Submit(st, forms[0]).0, forms[1..], f))
  }

  predicate NeverStores(st: Store, forms: seq<seq<Field>>, f: Field)
    decreases |forms|
  {
    forms == [] || (!StoresDefault(st, forms[0], f) && NeverStores(Submit(st, forms[0]).0, forms[1..], f))
  }

  /** Over any sequence of submits, from the empty store or any other without the default: a default comes to
      be stored exactly by the first submit, if there is one, of automatic twice that is not stored then. */
  lemma {:induction false} DefaultsOnlySo(st: Store, forms: seq<seq<Field>>, f: Field)
    requires !HoldsDefault(st, f) && forall k :: 0 <= k < |forms| ==> FormFor(forms[k], f)
    ensures NeverHolds(st, forms, f) <==> NeverStores(st, forms, f)
    decreases |forms|
  {
    if forms != [] {
      FormStoresDefault(st, forms[0], f);
      if !StoresDefault(st, forms[0], f) { DefaultsOnlySo(Submit(st, forms[0]).0, forms[1..], f); }
    }
  }
}
