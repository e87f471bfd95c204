/** The user-defined report filters, compiled into one query. */
module DynaQuery {
  import opened Wrappers
  import opened Sql

  datatype Operator =
    | IsEqual | IsNotEqual | IsGreater | IsLess | ContainsText | LacksText
    | MatchesRegex | FailsRegex | IsNullOp | IsNotNullOp | IsTrueOp | IsFalseOp

  datatype Outcome<+T> = Ok(value: T) | AttributeError(name: string)

  /** A filter as a form submits it. The operators are the codes "1" to "12" in order; any other
      code is `None`, which the compiler passes over. */
  datatype Filter = Filter(field: string, op: Option<Operator>, value: string)

  function Suffix(o: Operator): string {
    match o
    case IsEqual => "equal"
    case IsNotEqual => "notequal"
    case IsGreater => "greaterthan"
    case IsLess => "lessthan"
    case ContainsText => "contains"
    case LacksText => "ncontains"
    case MatchesRegex => "regex"
    case FailsRegex => "nregex"
    case IsNullOp => "isnull"
    case IsNotNullOp => "nisnull"
    case IsTrueOp => "istrue"
    case IsFalseOp => "isfalse"
  }

  function Key(field: string, o: Operator): string { field + "_" + Suffix(o) }

  function Expr(field: string, o: Operator, value: string): Clause {
    match o
    case IsEqual => Eq(field, Text(value))
    case IsNotEqual => Ne(field, Text(value))
    case IsGreater => Gt(field, Text(value))
    case IsLess => Lt(field, Text(value))
    case ContainsText => ILike(field, "%" + value + "%")
    case LacksText => Not(ILike(field, "%" + value + "%"))
    case MatchesRegex => Regexp(field, value)
    case FailsRegex => Not(Regexp(field, value))
    case IsNullOp => IsNull(field)
    case IsNotNullOp => IsNotNull(field)
    case IsTrueOp => Gt(field, Number(0))
    case IsFalseOp => Le(field, Number(0))
  }

  // ----- what the filters ask for -----

  ghost predicate Satisfies(truths: iset<Clause>, f: Filter) {
    f.op.Some? && Expr(f.field, f.op.value, f.value) in truths
  }

  /** Filters on the same field with the same operator are alternatives; the groups all have to hold.
      A filter with an unknown code asks for nothing. */
  ghost predicate Kept(truths: iset<Clause>, filters: seq<Filter>) {
    forall f :: f in filters && f.op.Some? ==> SomeAlternative(truths, filters, f)
  }

  ghost predicate SomeAlternative(truths: iset<Clause>, filters: seq<Filter>, f: Filter) {
    exists g :: g in filters && g.field == f.field && g.op == f.op && Satisfies(truths, g)
  }

  // ----- the grouping keys -----

  lemma SuffixHasNoUnderscore(o: Operator)
    ensures '_' !in Suffix(o)
  {
  }

  /** The field ends at the last underscore of the key. */
  lemma FieldNoLonger(f: string, o: Operator, g: string, p: Operator)
    requires Key(f, o) == Key(g, p)
    ensures |f| >= |g|
  {
    SuffixHasNoUnderscore(o);
    assert Key(g, p)[|g|] == '_';
    assert forall i :: |f| < i < |Key(f, o)| ==> Key(f, o)[i] == Suffix(o)[i - |f| - 1];
  }

  /** The key string determines the field and the operator, whatever the field is called. */
  lemma KeyInjective(f: string, o: Operator, g: string, p: Operator)
    requires Key(f, o) == Key(g, p)
    ensures f == g && o == p
  {
    FieldNoLonger(f, o, g, p);
    FieldNoLonger(g, p, f, o);
    assert f == Key(f, o)[..|f|] == g;
    assert Suffix(o) == Key(f, o)[|f| + 1..] == Suffix(p);
    SuffixInjective(o, p);
  }

  lemma SuffixInjective(o: Operator, p: Operator)
    requires Suffix(o) == Suffix(p)
    ensures o == p
  {
    assert Suffix(o)[0] == Suffix(p)[0];
    assert |Suffix(o)| == |Suffix(p)|;
  }

  ghost predicate FiledUnder(f: Filter, k: string) { f.op.Some? && Key(f.field, f.op.value) == k }

  /** The expressions the filters put under one key. */
  ghost function Group(filters: seq<Filter>, k: string): set<Clause> {
    set f | f in filters && FiledUnder(f, k) :: Expr(f.field, f.op.value, f.value)
  }

  /** Each of the clauses is all there is under some key. */
  ghost predicate StandAlone(filters: seq<Filter>, cs: seq<Clause>) { forall c :: c in cs ==> IsAlone(filters, c) }

  ghost predicate IsAlone(filters: seq<Filter>, c: Clause) { exists k :: Group(filters, k) == {c} }

  lemma StandAloneAppend(filters: seq<Filter>, a: seq<Clause>, b: seq<Clause>)
    requires StandAlone(filters, a) && StandAlone(filters, b)
    ensures StandAlone(filters, a + b)
  {
  }

  ghost predicate SomeTrue(truths: iset<Clause>, cs: set<Clause>) {
    exists c :: c in cs && c in truths
  }

  ghost predicate GroupsHold(truths: iset<Clause>, filters: seq<Filter>) {
    forall k :: Group(filters, k) != {} ==> SomeTrue(truths, Group(filters, k))
  }

  lemma KeptGroup(truths: iset<Clause>, filters: seq<Filter>, f: Filter)
    requires f in filters && f.op.Some? && SomeAlternative(truths, filters, f)
    ensures SomeTrue(truths, Group(filters, Key(f.field, f.op.value)))
  {
    var g :| g in filters && g.field == f.field && g.op == f.op && Satisfies(truths, g);
    assert FiledUnder(g, Key(f.field, f.op.value));
  }

  lemma GroupKeeps(truths: iset<Clause>, filters: seq<Filter>, f: Filter)
    requires GroupsHold(truths, filters) && f in filters && f.op.Some?
    ensures SomeAlternative(truths, filters, f)
  {
    var k := Key(f.field, f.op.value);
    assert FiledUnder(f, k);
    assert Expr(f.field, f.op.value, f.value) in Group(filters, k);
    assert SomeTrue(truths, Group(filters, k));
    var c :| c in Group(filters, k) && c in truths;
    var g :| g in filters && FiledUnder(g, k) && c == Expr(g.field, g.op.value, g.value);
    KeyInjective(f.field, f.op.value, g.field, g.op.value);
    assert Satisfies(truths, g);
  }

  /** Grouping by key string is grouping by field and operator. */
  lemma KeptByGroups(truths: iset<Clause>, filters: seq<Filter>)
    ensures Kept(truths, filters) <==> GroupsHold(truths, filters)
  {
    if Kept(truths, filters) {
      forall k | Group(filters, k) != {}
        ensures SomeTrue(truths, Group(filters, k))
      {
        var c :| c in Group(filters, k);
        var f :| f in filters && FiledUnder(f, k);
        KeptGroup(truths, filters, f);
      }
    }
    if GroupsHold(truths, filters) {
      forall f | f in filters && f.op.Some? { GroupKeeps(truths, filters, f); }
    }
  }

  /** The query keeps the rows of another one that the filters ask for. */
  ghost predicate Means(q: Query, base: Query, filters: seq<Filter>) {
    forall d, row :: Accepts(Truths(d, row), q) <==> Accepts(Truths(d, row), base) && Kept(Truths(d, row), filters)
  }

  /** The dictionary method `values`: the order is the dictionary's own. */
  method Values(m: map<string, Clause>) returns (vs: seq<Clause>)
    ensures forall c :: c in vs <==> c in m.Values
  {
    vs := [];
    var todo := m.Keys;
    while todo != {}
      invariant todo <= m.Keys
      invariant forall c :: c in vs <==> exists k :: k in m.Keys - todo && m[k] == c
      decreases todo
    {
      var k :| k in todo;
      ghost var before := todo;
      todo := todo - {k};
      assert m.Keys - todo == (m.Keys - before) + {k};
      vs := vs + [m[k]];
    }
  }

  lemma ValuesIn(m: map<string, Clause>, vs: seq<Clause>, before: seq<Clause>)
    requires forall c :: c in vs <==> c in m.Values
    ensures forall k :: k in m ==> m[k] in before + vs
  {
    forall k | k in m
      ensures m[k] in before + vs
    {
      var c := m[k];
      assert c in vs;
    }
  }

  /** One OR clause for each key. */
  method OrList(m: map<string, seq<Clause>>) returns (cs: seq<Clause>)
    ensures forall c :: c in cs <==> exists k :: k in m && c == Or(m[k])
    ensures cs == [] <==> m == map[]
  {
    cs := [];
    var todo := m.Keys;
    while todo != {}
      invariant todo <= m.Keys
      invariant forall c :: c in cs <==> exists k :: k in m.Keys - todo && c == Or(m[k])
      invariant cs == [] <==> todo == m.Keys
      decreases todo
    {
      var k :| k in todo;
      ghost var before := todo;
      todo := todo - {k};
      assert m.Keys - todo == (m.Keys - before) + {k};
      cs := cs + [Or(m[k])];
    }
  }

  /** The expressions the two dictionaries hold under a key. */
  ghost function Held(kwargs: map<string, Clause>, orclauses: map<string, seq<Clause>>, k: string): set<Clause> {
    if k in kwargs then {kwargs[k]} else if k in orclauses then set c | c in orclauses[k] else {}
  }

  lemma SecondHeld(kwargs: map<string, Clause>, orclauses: map<string, seq<Clause>>, key: string, expr: Clause)
    requires key in kwargs && key !in orclauses
    ensures var list := [expr] + [kwargs[key]];
            forall k :: Held(kwargs - {key}, orclauses[key := list], k) ==
                          Held(kwargs, orclauses, k) + if k == key then {expr} else {}
  {
    var list := [expr] + [kwargs[key]];
    assert list[0] == expr && list[1] == kwargs[key];
    assert (set c | c in list) == {kwargs[key]} + {expr};
  }

  lemma LaterHeld(kwargs: map<string, Clause>, orclauses: map<string, seq<Clause>>, key: string, expr: Clause)
    requires key !in kwargs && key in orclauses
    ensures forall k :: Held(kwargs, orclauses[key := orclauses[key] + [expr]], k) ==
                          Held(kwargs, orclauses, k) + if k == key then {expr} else {}
  {
    var list := orclauses[key];
    assert (set c | c in list + [expr]) == (set c | c in list) + {expr};
  }

  class DynaQuery {
    const columns: set<string>
    const query: Query
    const filters: seq<Filter>
    var addclauses: seq<Clause>
    var orclauses: map<string, seq<Clause>>
    var kwargs: map<string, Clause>
    var lkwargs: map<string, Clause>

    /** Every expression loaded under a key so far. */
    ghost function Loaded(k: string): set<Clause>
      reads this`kwargs, this`orclauses
    {
      Held(kwargs, orclauses, k)
    }

    ghost predicate Tables()
      reads this`kwargs, this`orclauses, this`lkwargs
    {
      && kwargs.Keys !! orclauses.Keys
      && lkwargs.Keys == orclauses.Keys
      && forall k :: k in orclauses ==> orclauses[k] != []
    }

    ghost predicate LoadedWithin()
      reads this`kwargs, this`orclauses
    {
      forall k :: Loaded(k) <= Group(filters, k)
    }

    /** Holds between calls: only what the filters ask for is loaded, and a clause is added
        outright only when it is all that its key will ever hold. */
    ghost predicate Valid()
      reads this
    {
      && Tables()
      && LoadedWithin()
      && StandAlone(filters, addclauses)
    }

    constructor (columns: set<string>, query: Query, filters: seq<Filter>)
      ensures Valid()
      ensures this.columns == columns && this.query == query && this.filters == filters
    {
      this.columns := columns;
      this.query := query;
      this.filters := filters;
      addclauses := [];
      orclauses := map[];
      kwargs := map[];
      lkwargs := map[];
    }

    /** The first expression for a key waits in `kwargs`, the second moves both to `orclauses`,
        later ones join them there. */
    method LoadKeys(key: string, expr: Clause)
      requires Tables()
      modifies this`orclauses, this`kwargs, this`lkwargs
      ensures Tables()
      ensures Loaded(key) == old(Loaded(key)) + {expr}
      ensures forall k :: k != key ==> Loaded(k) == old(Loaded(k))
    {
      if key in kwargs {
        SecondHeld(kwargs, orclauses, key, expr);
        if key !in orclauses {
          orclauses := orclauses[key := []];
        }
        orclauses := orclauses[key := orclauses[key] + [expr]];
        orclauses := orclauses[key := orclauses[key] + [kwargs[key]]];
        lkwargs := lkwargs[key := expr];
        assert orclauses[key] == [expr] + [kwargs[key]];
        assert orclauses == old(orclauses)[key := orclauses[key]];
        kwargs := kwargs - {key};
      } else {
        if key in lkwargs {
          if key !in orclauses {
            assert false;  // every key of `lkwargs` already has its list
          }
          LaterHeld(kwargs, orclauses, key, expr);
          orclauses := orclauses[key := orclauses[key] + [expr]];
        } else {
          kwargs := kwargs[key := expr];
        }
      }
    }

    ghost predicate LoadedUpTo(i: nat)
      requires i <= |filters|
      reads this
    {
      forall k :: Group(filters[..i], k) <= Loaded(k) <= Group(filters, k)
    }

    /** Feeds one filter into the tables. */
    method LoadFilter(i: nat)
      requires Valid() && i < |filters| && LoadedUpTo(i)
      modifies this`orclauses, this`kwargs, this`lkwargs
      ensures Valid() && LoadedUpTo(i + 1)
    {
      var f := filters[i];
      GroupStep(filters, i);
      if f.op.Some? {
        var key := Key(f.field, f.op.value);
        LoadKeys(key, Expr(f.field, f.op.value, f.value));
        assert forall k :: FiledUnder(f, k) <==> k == key;
        assert forall k :: Loaded(k) == old(Loaded(k)) + if k == key then {Expr(f.field, f.op.value, f.value)} else {};
      }
    }

    /** Feeds all filters into the tables; an unknown column stops it. */
    method LoadFilters() returns (bad: Option<string>)
      requires Valid()
      modifies this`orclauses, this`kwargs, this`lkwargs
      ensures Valid()
      ensures bad.None? <==> forall f :: f in filters ==> f.field in columns
      ensures bad.None? ==> Complete()
    {
      var i := 0;
      while i < |filters|
        invariant 0 <= i <= |filters|
        invariant Valid() && LoadedUpTo(i)
        invariant forall f :: f in filters[..i] ==> f.field in columns
      {
        var f := filters[i];
        if f.field !in columns {
          return Some(f.field);
        }
        LoadFilter(i);
        i := i + 1;
      }
      assert filters[..i] == filters;
      return None;
    }

    /** The compiled query keeps a row exactly when the query it started from does and some filter
        of each (field, operator) pair is true of it. The contract can be met any number of times in a
        row: a later call finds the tables full and still means the same. */
    method Generate() returns (r: Outcome<Query>)
      requires Valid()
      modifies this`orclauses, this`kwargs, this`lkwargs, this`addclauses
      ensures Valid()
      ensures r.Ok? <==> forall f :: f in filters ==> f.field in columns
      ensures r.Ok? ==> Means(r.value, query, filters)
    {
      var bad := LoadFilters();
      if bad.Some? {
        return AttributeError(bad.value);
      }
      AddWaiting();
      var orlist := OrList(orclauses);
      var q := Assemble(orlist);
      Compiled(orlist, q);
      r := Ok(q);
    }

    ghost predicate Complete()
      reads this`kwargs, this`orclauses
    {
      forall k :: Loaded(k) == Group(filters, k)
    }

    ghost predicate WaitingAdded()
      reads this
    {
      forall k :: k in kwargs ==> kwargs[k] in addclauses
    }

    /** The expressions that are alone under their key are added outright. */
    method AddWaiting()
      requires Valid() && Complete()
      modifies this`addclauses
      ensures Valid() && Complete() && WaitingAdded()
    {
      var vs := Values(kwargs);
      WaitingStandAlone(vs);
      StandAloneAppend(filters, addclauses, vs);
      ValuesIn(kwargs, vs, addclauses);
      addclauses := addclauses + vs;
    }

    ghost predicate Assembled(orlist: seq<Clause>, q: Query)
      reads this
    {
      forall d, row :: Accepts(Truths(d, row), q) <==>
                         Accepts(Truths(d, row), query) && AllTrue(Truths(d, row), addclauses + orlist)
    }

    lemma Compiled(orlist: seq<Clause>, q: Query)
      requires Valid() && Complete() && WaitingAdded() && Assembled(orlist, q)
      requires forall c :: c in orlist <==> exists k :: k in orclauses && c == Or(orclauses[k])
      ensures Means(q, query, filters)
    {
      forall d, row
        ensures Accepts(Truths(d, row), q) <==>
                  Accepts(Truths(d, row), query) && Kept(Truths(d, row), filters)
      {
        GroupsMet(d, row, orlist);
        KeptByGroups(Truths(d, row), filters);
      }
    }

    /** The criterion for the clauses at hand, in whichever of its forms applies. */
    method Assemble(orlist: seq<Clause>) returns (q: Query)
      requires orlist == [] <==> orclauses == map[]
      ensures Assembled(orlist, q)
    {
      q := query;
      if addclauses != [] || orclauses != map[] {
        if addclauses != [] && orclauses != map[] {
          q := query.Filter(And([And(addclauses)] + orlist));
        } else {
          if addclauses != [] {
            q := query.Filter(And(addclauses));
          }
          if orclauses != map[] {
            q := query.Filter(And(orlist));
          }
        }
      }
      assert orlist == [] ==> addclauses + orlist == addclauses;
      assert addclauses == [] ==> addclauses + orlist == orlist;
      forall d, row
        ensures Accepts(Truths(d, row), q) <==>
                  Accepts(Truths(d, row), query) && AllTrue(Truths(d, row), addclauses + orlist)
      {
        FilteredMeaning(d, row, addclauses, orlist);
      }
    }

    lemma WaitingStandAlone(vs: seq<Clause>)
      requires Complete()
      requires forall c :: c in vs <==> c in kwargs.Values
      ensures StandAlone(filters, vs)
    {
      forall c | c in vs
        ensures IsAlone(filters, c)
      {
        var k :| k in kwargs && kwargs[k] == c;
        assert Loaded(k) == Group(filters, k);
      }
    }

    /** Whichever of its four forms the criterion takes, it asks for all the clauses. */
    lemma FilteredMeaning(d: Dialect, row: Row, adds: seq<Clause>, ors: seq<Clause>)
      ensures Accepts(Truths(d, row), query.Filter(And([And(adds)] + ors))) <==>
                Accepts(Truths(d, row), query) && AllTrue(Truths(d, row), adds + ors)
      ensures Accepts(Truths(d, row), query.Filter(And(adds))) <==>
                Accepts(Truths(d, row), query) && AllTrue(Truths(d, row), adds)
      ensures Accepts(Truths(d, row), query.Filter(And(ors))) <==>
                Accepts(Truths(d, row), query) && AllTrue(Truths(d, row), ors)
    {
      var t := Truths(d, row);
      AndTrue(d, row, adds);
      AndTrue(d, row, ors);
      AndTrue(d, row, [And(adds)] + ors);
      AcceptsFilter(t, query, And(adds));
      AcceptsFilter(t, query, And(ors));
      AcceptsFilter(t, query, And([And(adds)] + ors));
      assert AllTrue(t, adds + ors) <==> AllTrue(t, adds) && AllTrue(t, ors) by {
        AllTrueAppend(t, adds, ors);
      }
      assert AllTrue(t, [And(adds)] + ors) <==> And(adds) in t && AllTrue(t, ors) by {
        AllTrueAppend(t, [And(adds)], ors);
        assert [And(adds)][0] == And(adds);
      }
    }

    /** The clauses hold together exactly when each key has a true expression. */
    lemma GroupsMet(d: Dialect, row: Row, orlist: seq<Clause>)
      requires Valid() && Complete() && WaitingAdded()
      requires forall c :: c in orlist <==> exists k :: k in orclauses && c == Or(orclauses[k])
      ensures AllTrue(Truths(d, row), addclauses + orlist) <==> GroupsHold(Truths(d, row), filters)
    {
      var t := Truths(d, row);
      AllTrueAppend(t, addclauses, orlist);
      if AllTrue(t, addclauses + orlist) {
        forall k | Group(filters, k) != {} { MetKey(d, row, orlist, k); }
      }
      if GroupsHold(t, filters) {
        MetAdded(t);
        forall c | c in orlist
          ensures c in t
        {
          var k :| k in orclauses && c == Or(orclauses[k]);
          MetList(d, row, k);
        }
      }
    }

    lemma MetAdded(t: iset<Clause>)
      requires Valid() && GroupsHold(t, filters)
      ensures AllTrue(t, addclauses)
    {
      forall c | c in addclauses
        ensures c in t
      {
        var k :| Group(filters, k) == {c};
        assert SomeTrue(t, Group(filters, k));
      }
    }

    lemma MetList(d: Dialect, row: Row, k: string)
      requires Valid() && Complete() && k in orclauses && GroupsHold(Truths(d, row), filters)
      ensures Or(orclauses[k]) in Truths(d, row)
    {
      var t := Truths(d, row);
      assert Loaded(k) == Group(filters, k);
      assert orclauses[k][0] in Loaded(k);
      assert SomeTrue(t, Group(filters, k));
      OrTrue(d, row, orclauses[k]);
    }

    lemma MetKey(d: Dialect, row: Row, orlist: seq<Clause>, k: string)
      requires Valid()
      requires Loaded(k) == Group(filters, k) != {}
      requires forall c :: c in orlist <==> exists k :: k in orclauses && c == Or(orclauses[k])
      requires k in kwargs ==> kwargs[k] in addclauses
      requires AllTrue(Truths(d, row), addclauses) && AllTrue(Truths(d, row), orlist)
      ensures SomeTrue(Truths(d, row), Group(filters, k))
    {
      if k in kwargs {
        assert kwargs[k] in Group(filters, k);
      } else {
        assert Or(orclauses[k]) in orlist;
        OrTrue(d, row, orclauses[k]);
        var c :| c in orclauses[k] && c in Truths(d, row);
        assert c in Loaded(k);
      }
    }
  }

  ghost predicate AllTrue(truths: iset<Clause>, cs: seq<Clause>) { forall c :: c in cs ==> c in truths }

  lemma AllTrueAppend(truths: iset<Clause>, a: seq<Clause>, b: seq<Clause>)
    ensures AllTrue(truths, a + b) <==> AllTrue(truths, a) && AllTrue(truths, b)
  {
    if AllTrue(truths, a + b) {
      assert forall c :: c in a ==> c in a + b;
      assert forall c :: c in b ==> c in a + b;
    }
  }

  lemma GroupStep(filters: seq<Filter>, i: nat)
    requires i < |filters|
    ensures forall k :: Group(filters[..i + 1], k) ==
                          Group(filters[..i], k)
                          + if FiledUnder(filters[i], k) then
                              {Expr(filters[i].field, filters[i].op.value, filters[i].value)}
                            else {}
    ensures forall k :: FiledUnder(filters[i], k) ==>
                          Expr(filters[i].field, filters[i].op.value, filters[i].value) in Group(filters, k)
  {
    assert filters[..i + 1] == filters[..i] + [filters[i]];
    assert filters[i] in filters && filters[i] in filters[..i + 1];
  }

  /** Two queries over the same filters, in any order and any number of times each, keep the same rows: those
      of two objects, whatever has been generated from them before, or of one object twice. */
  method InAnyOrder(x: DynaQuery, y: DynaQuery) returns (q: Outcome<Query>, r: Outcome<Query>)
    requires x.Valid() && y.Valid() && x.columns == y.columns && x.query == y.query
    requires forall f :: f in x.filters <==> f in y.filters
    modifies x`orclauses, x`kwargs, x`lkwargs, x`addclauses, y`orclauses, y`kwargs, y`lkwargs, y`addclauses
    ensures x.Valid() && y.Valid()
    ensures q.Ok? <==> r.Ok?
    ensures q.Ok? ==> forall d, row :: Accepts(Truths(d, row), q.value) <==> Accepts(Truths(d, row), r.value)
  {
    q := x.Generate();
    r := y.Generate();
    if q.Ok? {
      forall d, row
        ensures Accepts(Truths(d, row), q.value) <==> Accepts(Truths(d, row), r.value)
      {
        OrderIrrelevant(Truths(d, row), x.filters, y.filters);
      }
    }
  }

  lemma OrderIrrelevant(truths: iset<Clause>, a: seq<Filter>, b: seq<Filter>)
    requires forall f :: f in a <==> f in b
    ensures Kept(truths, a) <==> Kept(truths, b)
  {
    if Kept(truths, a) {
      forall f | f in b && f.op.Some?
        ensures SomeAlternative(truths, b, f)
      {
        assert SomeAlternative(truths, a, f);
      }
    }
  }

  // ----- what each operator asks -----

  /** The codes a form submits. */
  function OperatorOf(code: string): Option<Operator> {
    if code == "1" then Some(IsEqual) else if code == "2" then Some(IsNotEqual)
    else if code == "3" then Some(IsGreater) else if code == "4" then Some(IsLess)
    else if code == "5" then Some(ContainsText) else if code == "6" then Some(LacksText)
    else if code == "7" then Some(MatchesRegex) else if code == "8" then Some(FailsRegex)
    else if code == "9" then Some(IsNullOp) else if code == "10" then Some(IsNotNullOp)
    else if code == "11" then Some(IsTrueOp) else if code == "12" then Some(IsFalseOp)
    else None
  }

  /** A cell of a row, NULL being `None`. */
  function Cell(row: Row, field: string): Option<string> { if field in row then Some(row[field]) else None }

  /** What a filter asks of a cell, by its code and the database's comparisons. */
  ghost predicate Asked(d: Dialect, cell: Option<string>, code: string, value: string) {
    if code == "1" then cell.Some? && (cell.value, Literal.Text(value)) in d.eq
    else if code == "2" then cell.Some? && (cell.value, Literal.Text(value)) !in d.eq
    else if code == "3" then
      cell.Some? && (cell.value, Literal.Text(value)) !in d.lt && (cell.value, Literal.Text(value)) !in d.eq
    else if code == "4" then cell.Some? && (cell.value, Literal.Text(value)) in d.lt
    else if code == "5" then cell.Some? && (cell.value, "%" + value + "%") in d.ilike
    else if code == "6" then cell.Some? && (cell.value, "%" + value + "%") !in d.ilike
    else if code == "7" then cell.Some? && (cell.value, value) in d.regexp
    else if code == "8" then cell.Some? && (cell.value, value) !in d.regexp
    else if code == "9" then cell.None?
    else if code == "10" then cell.Some?
    else if code == "11" then cell.Some? && (cell.value, Number(0)) !in d.lt && (cell.value, Number(0)) !in d.eq
    else if code == "12" then cell.Some? && ((cell.value, Number(0)) in d.lt || (cell.value, Number(0)) in d.eq)
    else true
  }

  lemma NegationTrue(d: Dialect, row: Row, e: Clause)
    requires e.ILike? || e.Regexp?
    ensures Not(e) in Truths(d, row) <==> e.col in row && !Test(d, row[e.col], e)
  {
    assert Eval(d, row, e) == if e.col in row then Bool(Test(d, row[e.col], e)) else Unknown;
    assert Eval(d, row, Not(e)) == True <==> Eval(d, row, e) == False;
  }

  lemma SimpleTrue(d: Dialect, row: Row, e: Clause)
    requires !e.Not? && !e.And? && !e.Or?
    ensures e in Truths(d, row) <==>
              if e.IsNull? then e.col !in row else e.col in row && (e.IsNotNull? || Test(d, row[e.col], e))
  {
  }

  lemma ExprAsks(d: Dialect, row: Row, field: string, code: string, value: string)
    ensures match OperatorOf(code)
            case None => Asked(d, Cell(row, field), code, value)
            case Some(o) => Expr(field, o, value) in Truths(d, row) <==> Asked(d, Cell(row, field), code, value)
  {
    match OperatorOf(code)
    case None =>
    case Some(LacksText) => NegationTrue(d, row, ILike(field, "%" + value + "%"));
    case Some(FailsRegex) => NegationTrue(d, row, Regexp(field, value));
    case Some(o) => SimpleTrue(d, row, Expr(field, o, value));
  }

  /** One filter keeps the rows whose cell is as it asks. */
  lemma KeptByOne(d: Dialect, row: Row, field: string, code: string, value: string)
    ensures Kept(Truths(d, row), [Filter(field, OperatorOf(code), value)]) <==> Asked(d, Cell(row, field), code, value)
  {
    var f := Filter(field, OperatorOf(code), value);
    ExprAsks(d, row, field, code, value);
    assert [f][0] == f && f in [f];
  }

  /** And of several filters, for each that has a known code some one on its field, with its code, would keep
      the row alone. */
  lemma KeptBySome(truths: iset<Clause>, filters: seq<Filter>)
    ensures Kept(truths, filters) <==>
              forall f :: f in filters && f.op.Some? ==>
                exists g :: g in filters && g.field == f.field && g.op == f.op && Kept(truths, [g])
  {
    forall g | g in filters && g.op.Some?
      ensures Kept(truths, [g]) <==> Satisfies(truths, g)
    {
      assert [g][0] == g && g in [g];
    }
  }

  /** The query compiled from a single filter, whatever its code. */
  method GenerateOne(columns: set<string>, query: Query, field: string, code: string, value: string)
    returns (r: Outcome<Query>)
    ensures r.Ok? <==> field in columns
    ensures r.Ok? ==> forall d, row ::
              Accepts(Truths(d, row), r.value) <==>
                Accepts(Truths(d, row), query) && Asked(d, Cell(row, field), code, value)
  {
    var f := Filter(field, OperatorOf(code), value);
    var compiler := new DynaQuery(columns, query, [f]);
    r := compiler.Generate();
    assert [f][0] == f && f in [f];
    forall d, row { KeptByOne(d, row, field, code, value); }
  }
}
