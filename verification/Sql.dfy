/** SQL criteria under three-valued logic. */
module Sql {

  datatype Truth = True | False | Unknown

  datatype Literal = Text(text: string) | Number(number: int)

  /** A row: a column it does not list is NULL. */
  type Row = map<string, string>

  /** The comparisons the database makes on non-null cells. */
  datatype Dialect = Dialect(
    lt: iset<(string, Literal)>,
    eq: iset<(string, Literal)>,
    ilike: iset<(string, string)>,
    regexp: iset<(string, string)>)

  datatype Clause =
    | Eq(col: string, value: Literal)
    | Ne(col: string, value: Literal)
    | Gt(col: string, value: Literal)
    | Lt(col: string, value: Literal)
    | Le(col: string, value: Literal)
    | In(col: string, values: seq<string>)
    | LikeC(col: string, pattern: string)
    | ILike(col: string, pattern: string)
    | Regexp(col: string, pattern: string)
    | IsNull(col: string)
    | IsNotNull(col: string)
    | Not(clause: Clause)
    | And(clauses: seq<Clause>)
    | Or(clauses: seq<Clause>)

  function Bool(b: bool): Truth { if b then True else False }

  /** `LIKE` with `%`, `_` and the default escape character, a backslash. */
  predicate Like(s: string, p: string)
    decreases |p|, |s|
  {
    if p == "" then s == ""
    else if p[0] == '%' then Like(s, p[1..]) || (s != "" && Like(s[1..], p))
    else if p[0] == '_' then s != "" && Like(s[1..], p[1..])
    else if p[0] == '\\' then |p| > 1 && s != "" && s[0] == p[1] && Like(s[1..], p[2..])
    else s != "" && s[0] == p[0] && Like(s[1..], p[1..])
  }

  /** A test on the cell of a column: NULL makes any of them unknown. */
  ghost function Test(d: Dialect, v: string, c: Clause): bool
  {
    match c
    case Eq(_, x) => (v, x) in d.eq
    case Ne(_, x) => (v, x) !in d.eq
    case Lt(_, x) => (v, x) in d.lt
    case Le(_, x) => (v, x) in d.lt || (v, x) in d.eq
    case Gt(_, x) => (v, x) !in d.lt && (v, x) !in d.eq
    case In(_, xs) => v in xs
    case LikeC(_, p) => Like(v, p)
    case ILike(_, p) => (v, p) in d.ilike
    case Regexp(_, p) => (v, p) in d.regexp
    case _ => true
  }

  ghost function Eval(d: Dialect, row: Row, c: Clause): Truth
    decreases c
  {
    match c
    case IsNull(col) => Bool(col !in row)
    case IsNotNull(col) => Bool(col in row)
    case Not(e) => (match Eval(d, row, e) case True => False case False => True case Unknown => Unknown)
    case And(cs) =>
      if exists e | e in cs :: Eval(d, row, e) == False then False
      else if forall e | e in cs :: Eval(d, row, e) == True then True
      else Unknown
    case Or(cs) =>
      if exists e | e in cs :: Eval(d, row, e) == True then True
      else if forall e | e in cs :: Eval(d, row, e) == False then False
      else Unknown
    case _ => if c.col in row then Bool(Test(d, row[c.col], c)) else Unknown
  }

  /** A query keeps the rows on which every criterion added to it is true. */
  datatype Query = Query(where: seq<Clause>) {
    function Filter(c: Clause): Query { Query(where + [c]) }
  }

  /** The clauses a row makes true. */
  ghost function Truths(d: Dialect, row: Row): iset<Clause> { iset c | Eval(d, row, c) == True }

  ghost predicate Accepts(truths: iset<Clause>, q: Query) {
    forall c :: c in q.where ==> c in truths
  }

  lemma AcceptsFilter(truths: iset<Clause>, q: Query, c: Clause)
    ensures Accepts(truths, q.Filter(c)) <==> Accepts(truths, q) && c in truths
  {
    assert c in q.Filter(c).where;
  }

  lemma AndTrue(d: Dialect, row: Row, cs: seq<Clause>)
    ensures And(cs) in Truths(d, row) <==> forall c :: c in cs ==> c in Truths(d, row)
  {
    if forall c :: c in cs ==> c in Truths(d, row) {
      assert forall c :: c in cs ==> Eval(d, row, c) == True;
    }
    if And(cs) in Truths(d, row) {
      assert forall c :: c in cs ==> Eval(d, row, c) == True;
    }
  }

  lemma OrTrue(d: Dialect, row: Row, cs: seq<Clause>)
    ensures Or(cs) in Truths(d, row) <==> exists c :: c in cs && c in Truths(d, row)
  {
    if c :| c in cs && c in Truths(d, row) {
      assert Eval(d, row, c) == True;
    }
    if Or(cs) in Truths(d, row) {
      assert exists c :: c in cs && Eval(d, row, c) == True;
    }
  }
}
