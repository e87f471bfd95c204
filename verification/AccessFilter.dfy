/** Who may see which message: the access rule, and the hash prefilter the full-text index applies first. */
module AccessFilter {
  import opened Sql
  import opened Text

  datatype Account = SuperAdmin | DomainAdmin | Ordinary

  datatype Alias = Alias(name: string, status: bool)

  datatype Domain = Domain(name: string, status: bool, aliases: seq<Alias>)

  /** `domains` are those of the organizations the user administers. */
  datatype User = User(account: Account, email: string, addresses: seq<string>, domains: seq<Domain>)

  datatype Direction = Inbound | Outbound | Either

  const TO_ADDRESS := "to_address"
  const FROM_ADDRESS := "from_address"
  const TO_DOMAIN := "to_domain"
  const FROM_DOMAIN := "from_domain"

  /** Stands in for an empty domain list. */
  const SENTINEL := "xx"

  predicate IsTagged(address: string) { Contains(address, "+*") || Contains(address, "-*") }

  /** Rewrites every `+*` and `-*` to `+%` and `-%`. */
  function TagPattern(s: string): string {
    if |s| < 2 then s
    else if (s[0] == '+' || s[0] == '-') && s[1] == '*' then [s[0], '%'] + TagPattern(s[2..])
    else [s[0]] + TagPattern(s[1..])
  }

  // ----- the rule -----

  predicate HasAddress(user: User, address: string) {
    || address == user.email
    || (exists a :: a in user.addresses && !IsTagged(a) && address == a)
    || (exists a :: a in user.addresses && IsTagged(a) && Like(address, TagPattern(a)))
  }

  /** The domains a user administers and their live aliases; inactive domains count on request. */
  ghost predicate Administers(user: User, name: string, inactiveToo: bool) {
    exists d :: d in user.domains && (d.status || inactiveToo) && Names(d, name)
  }

  predicate Names(d: Domain, name: string) {
    name == d.name || exists a :: a in d.aliases && a.status && name == a.name
  }

  ghost predicate HasNoDomain(user: User, inactiveToo: bool) {
    forall name :: !Administers(user, name, inactiveToo)
  }

  ghost predicate AllowsDomain(user: User, name: string) {
    Administers(user, name, false) || (HasNoDomain(user, false) && name == SENTINEL)
  }

  ghost predicate Visible(user: User, direction: Direction, row: Row) {
    var to, from := direction != Outbound, direction != Inbound;
    match user.account
    case SuperAdmin => true
    case DomainAdmin =>
      || (to && TO_DOMAIN in row && AllowsDomain(user, row[TO_DOMAIN]))
      || (from && FROM_DOMAIN in row && AllowsDomain(user, row[FROM_DOMAIN]))
    case Ordinary =>
      || (to && TO_ADDRESS in row && HasAddress(user, row[TO_ADDRESS]))
      || (from && FROM_ADDRESS in row && HasAddress(user, row[FROM_ADDRESS]))
  }

  // ----- the rule in full -----

  /** A `+*` or a `-*` starts at `i`. */
  predicate TagAt(a: string, i: int) { 0 <= i < |a| - 1 && (a[i] == '+' || a[i] == '-') && a[i + 1] == '*' }

  lemma {:induction false} ContainsPair(a: string, x: char, y: char)
    ensures Contains(a, [x, y]) <==> exists i :: 0 <= i < |a| - 1 && a[i] == x && a[i + 1] == y
  {
    if a != "" {
      var t := a[1..];
      ContainsPair(t, x, y);
      assert [x, y] <= a <==> |a| > 1 && a[0] == x && a[1] == y;
      if i :| 0 <= i < |t| - 1 && t[i] == x && t[i + 1] == y {
        assert a[i + 1] == x && a[i + 1 + 1] == y;
      }
      if i :| 0 < i < |a| - 1 && a[i] == x && a[i + 1] == y {
        assert t[i - 1] == x && t[i - 1 + 1] == y;
      }
    }
  }

  lemma TaggedMeans(a: string)
    ensures IsTagged(a) <==> exists i :: TagAt(a, i)
  {
    ContainsPair(a, '+', '*');
    ContainsPair(a, '-', '*');
    if i :| 0 <= i < |a| - 1 && a[i] == '+' && a[i + 1] == '*' { assert TagAt(a, i); }
    if i :| 0 <= i < |a| - 1 && a[i] == '-' && a[i + 1] == '*' { assert TagAt(a, i); }
  }

  /** The stars of the tags become percent signs, and nothing else changes. */
  lemma {:induction false} TagPatternMeans(a: string)
    ensures |TagPattern(a)| == |a|
    ensures forall i :: 0 <= i < |a| ==> TagPattern(a)[i] == if TagAt(a, i - 1) then '%' else a[i]
  {
    if |a| >= 2 {
      var k := if TagAt(a, 0) then 2 else 1;
      TagPatternMeans(a[k..]);
      forall i | k <= i < |a|
        ensures TagPattern(a)[i] == if TagAt(a, i - 1) then '%' else a[i]
      {
        assert TagPattern(a)[i] == TagPattern(a[k..])[i - k];
        assert i > k ==> (TagAt(a, i - 1) <==> TagAt(a[k..], i - 1 - k));
      }
    }
  }

  /** The live domains, and their live aliases. */
  predicate LiveName(user: User, name: string) {
    exists d :: d in user.domains && d.status
                && (name == d.name || exists a :: a in d.aliases && a.status && name == a.name)
  }

  /** Of each direction the column that counts. */
  predicate Counts(col: string, to: string, from: string, direction: Direction) {
    (col == to && direction != Outbound) || (col == from && direction != Inbound)
  }

  /** Who sees which row: a super administrator all; a domain administrator those of a live domain or alias, or
      of `xx` without a live domain; anyone else those of the own addresses, a tag standing for any. */
  lemma VisibleMeans(user: User, direction: Direction, row: Row)
    ensures user.account == SuperAdmin ==> Visible(user, direction, row)
    ensures user.account == DomainAdmin ==>
              (Visible(user, direction, row) <==>
                 exists col :: Counts(col, "to_domain", "from_domain", direction) && col in row
                               && (LiveName(user, row[col])
                                   || (row[col] == "xx" && forall d :: d in user.domains ==> !d.status)))
    ensures user.account == Ordinary ==>
              (Visible(user, direction, row) <==>
                 exists col :: Counts(col, "to_address", "from_address", direction) && col in row
                               && (row[col] == user.email
                                   || exists a :: a in user.addresses
                                        && if exists i :: TagAt(a, i) then Like(row[col], TagPattern(a))
                                           else row[col] == a))
  {
    if user.account == DomainAdmin { DomainsMean(user); }
    if user.account == Ordinary { forall a { TaggedMeans(a); } }
  }

  lemma DomainsMean(user: User)
    ensures forall name :: Administers(user, name, false) <==> LiveName(user, name)
    ensures forall name :: Administers(user, name, true) <==>
              exists d :: d in user.domains
                          && (name == d.name || exists a :: a in d.aliases && a.status && name == a.name)
    ensures HasNoDomain(user, false) <==> forall d :: d in user.domains ==> !d.status
    ensures HasNoDomain(user, true) <==> user.domains == []
  {
    assert user.domains != [] ==> Administers(user, user.domains[0].name, true);
    assert forall d :: d in user.domains && d.status ==> Administers(user, d.name, false);
  }

  // ----- the query filter -----

  method DomainNames(domains: seq<Domain>, inactiveToo: bool) returns (names: seq<string>)
    ensures forall n :: n in names <==>
              exists d :: d in domains && (d.status || inactiveToo) && Names(d, n)
  {
    names := [];
    for i := 0 to |domains|
      invariant forall n :: n in names <==>
                  exists d :: d in domains[..i] && (d.status || inactiveToo) && Names(d, n)
    {
      var d := domains[i];
      assert domains[..i + 1] == domains[..i] + [d];
      if d.status || inactiveToo {
        var more := AliasNames(d);
        names := names + more;
      }
    }
    assert domains[..|domains|] == domains;
  }

  method AliasNames(d: Domain) returns (names: seq<string>)
    ensures forall n :: n in names <==> Names(d, n)
  {
    names := [d.name];
    for j := 0 to |d.aliases|
      invariant forall n :: n in names <==>
                  n == d.name || exists a :: a in d.aliases[..j] && a.status && n == a.name
    {
      assert d.aliases[..j + 1] == d.aliases[..j] + [d.aliases[j]];
      if d.aliases[j].status {
        names := names + [d.aliases[j].name];
      }
    }
    assert d.aliases[..|d.aliases|] == d.aliases;
  }

  function Plain(addresses: seq<string>): seq<string> {
    if addresses == [] then []
    else (if IsTagged(addresses[0]) then [] else [addresses[0]]) + Plain(addresses[1..])
  }

  function Tagged(addresses: seq<string>): seq<string> {
    if addresses == [] then []
    else (if IsTagged(addresses[0]) then [addresses[0]] else []) + Tagged(addresses[1..])
  }

  function LikeAny(col: string, tagged: seq<string>): Clause {
    Or(seq(|tagged|, i requires 0 <= i < |tagged| => LikeC(col, TagPattern(tagged[i]))))
  }

  /** What an address column is tested against: the wildcard patterns, if any, and the plain list. */
  function AddressTests(user: User, col: string): seq<Clause> {
    var tagged := Tagged(user.addresses);
    (if tagged == [] then [] else [LikeAny(col, tagged)]) + [In(col, Plain(user.addresses) + [user.email])]
  }

  class UserFilter {
    const user: User
    var query: Query
    var direction: Direction

    constructor (user: User, query: Query)
      ensures this.user == user && this.query == query && direction == Either
    {
      this.user := user;
      this.query := query;
      direction := Either;
    }

    method SetDirection(direction: Direction)
      modifies this`direction
      ensures this.direction == direction
    {
      this.direction := direction;
    }

    method BuildUserFilter()
      requires user.account == Ordinary
      modifies this`query
      ensures Narrowed(old(query), query)
    {
      ghost var before := query;
      match direction {
        case Inbound => query := query.Filter(Or(AddressTests(user, TO_ADDRESS)));
        case Outbound => query := query.Filter(Or(AddressTests(user, FROM_ADDRESS)));
        case Either => query := query.Filter(Or(AddressTests(user, TO_ADDRESS) + AddressTests(user, FROM_ADDRESS)));
      }
      forall d, row
        ensures Accepts(Truths(d, row), query) <==> Accepts(Truths(d, row), before) && Visible(user, direction, row)
      {
        AddressFilterMeaning(d, row, user, before);
      }
    }

    /** The later query keeps, of the rows the earlier one keeps, exactly those the user may see. */
    ghost predicate Narrowed(before: Query, after: Query)
      reads this`direction
    {
      forall d, row :: Accepts(Truths(d, row), after) <==>
                         Accepts(Truths(d, row), before) && Visible(user, direction, row)
    }

    method Filter() returns (q: Query)
      modifies this`query
      ensures q == query
      ensures Narrowed(old(query), query)
    {
      ghost var before := query;
      if user.account == DomainAdmin {
        var domains := DomainNames(user.domains, false);
        assert forall n :: n in domains <==> Administers(user, n, false);
        assert domains != [] ==> domains[0] in domains;
        if domains == [] {
          domains := domains + [SENTINEL];
        }
        match direction {
          case Inbound => query := query.Filter(In(TO_DOMAIN, domains));
          case Outbound => query := query.Filter(In(FROM_DOMAIN, domains));
          case Either => query := query.Filter(Or([In(TO_DOMAIN, domains), In(FROM_DOMAIN, domains)]));
        }
        forall d, row
          ensures Accepts(Truths(d, row), query) <==> Accepts(Truths(d, row), before) && Visible(user, direction, row)
        {
          DomainFilterMeaning(d, row, user, before, domains);
        }
      }
      if user.account == Ordinary {
        BuildUserFilter();
      }
      return query;
    }
  }

  lemma DomainFilterMeaning(d: Dialect, row: Row, user: User, q: Query, domains: seq<string>)
    requires user.account == DomainAdmin
    requires forall n :: n in domains <==> AllowsDomain(user, n)
    ensures Accepts(Truths(d, row), q.Filter(In(TO_DOMAIN, domains))) <==>
              Accepts(Truths(d, row), q) && Visible(user, Inbound, row)
    ensures Accepts(Truths(d, row), q.Filter(In(FROM_DOMAIN, domains))) <==>
              Accepts(Truths(d, row), q) && Visible(user, Outbound, row)
    ensures Accepts(Truths(d, row), q.Filter(Or([In(TO_DOMAIN, domains), In(FROM_DOMAIN, domains)]))) <==>
              Accepts(Truths(d, row), q) && Visible(user, Either, row)
  {
    var a, b := In(TO_DOMAIN, domains), In(FROM_DOMAIN, domains);
    AcceptsFilter(Truths(d, row), q, a);
    AcceptsFilter(Truths(d, row), q, b);
    AcceptsFilter(Truths(d, row), q, Or([a, b]));
    OrTrue(d, row, [a, b]);
    assert a in [a, b] && b in [a, b];
    InMeans(d, row, TO_DOMAIN, domains);
    InMeans(d, row, FROM_DOMAIN, domains);
  }

  lemma InMeans(d: Dialect, row: Row, col: string, values: seq<string>)
    ensures In(col, values) in Truths(d, row) <==> col in row && row[col] in values
  {
  }

  lemma LikeMeans(d: Dialect, row: Row, col: string, pattern: string)
    ensures LikeC(col, pattern) in Truths(d, row) <==> col in row && Like(row[col], pattern)
  {
  }

  lemma {:induction false} PlainAndTagged(addresses: seq<string>)
    ensures forall a :: a in Plain(addresses) <==> a in addresses && !IsTagged(a)
    ensures forall a :: a in Tagged(addresses) <==> a in addresses && IsTagged(a)
  {
    if addresses != [] {
      PlainAndTagged(addresses[1..]);
      assert addresses == [addresses[0]] + addresses[1..];
    }
  }

  lemma LikeAnyMeans(d: Dialect, row: Row, col: string, tagged: seq<string>)
    ensures LikeAny(col, tagged) in Truths(d, row) <==>
              col in row && exists a :: a in tagged && Like(row[col], TagPattern(a))
  {
    var cs := LikeAny(col, tagged).clauses;
    OrTrue(d, row, cs);
    assert forall i :: 0 <= i < |tagged| ==> cs[i] == LikeC(col, TagPattern(tagged[i])) && cs[i] in cs;
    forall i | 0 <= i < |tagged| { LikeMeans(d, row, col, TagPattern(tagged[i])); }
    if col in row {
      if a :| a in tagged && Like(row[col], TagPattern(a)) {
        var i :| 0 <= i < |tagged| && tagged[i] == a;
        assert cs[i] in Truths(d, row);
      }
    }
  }

  lemma AddressTestsMean(d: Dialect, row: Row, user: User, col: string)
    ensures (exists c :: c in AddressTests(user, col) && c in Truths(d, row)) <==>
              col in row && HasAddress(user, row[col])
  {
    var tagged, plain := Tagged(user.addresses), Plain(user.addresses) + [user.email];
    PlainAndTagged(user.addresses);
    LikeAnyMeans(d, row, col, tagged);
    InMeans(d, row, col, plain);
    var cs := AddressTests(user, col);
    assert forall c :: c in cs <==> c == In(col, plain) || (tagged != [] && c == LikeAny(col, tagged));
  }

  lemma AddressFilterMeaning(d: Dialect, row: Row, user: User, q: Query)
    requires user.account == Ordinary
    ensures Accepts(Truths(d, row), q.Filter(Or(AddressTests(user, TO_ADDRESS)))) <==>
              Accepts(Truths(d, row), q) && Visible(user, Inbound, row)
    ensures Accepts(Truths(d, row), q.Filter(Or(AddressTests(user, FROM_ADDRESS)))) <==>
              Accepts(Truths(d, row), q) && Visible(user, Outbound, row)
    ensures Accepts(Truths(d, row),
                q.Filter(Or(AddressTests(user, TO_ADDRESS) + AddressTests(user, FROM_ADDRESS)))) <==>
              Accepts(Truths(d, row), q) && Visible(user, Either, row)
  {
    var a, b := AddressTests(user, TO_ADDRESS), AddressTests(user, FROM_ADDRESS);
    AddressTestsMean(d, row, user, TO_ADDRESS);
    AddressTestsMean(d, row, user, FROM_ADDRESS);
    OrTrue(d, row, a);
    OrTrue(d, row, b);
    OrTrue(d, row, a + b);
    AcceptsFilter(Truths(d, row), q, Or(a));
    AcceptsFilter(Truths(d, row), q, Or(b));
    AcceptsFilter(Truths(d, row), q, Or(a + b));
  }

  // ----- the prefilter -----

  /** What the index stores for a message: hashes of its addresses and domains, and for NULL
      whatever the indexer puts there. */
  datatype Entry = Entry(toAddr: int, fromAddr: int, toDom: int, fromDom: int)

  function Indexed(row: Row, crc: string -> int, absent: int): Entry {
    Entry(
      if TO_ADDRESS in row then crc(row[TO_ADDRESS]) else absent,
      if FROM_ADDRESS in row then crc(row[FROM_ADDRESS]) else absent,
      if TO_DOMAIN in row then crc(row[TO_DOMAIN]) else absent,
      if FROM_DOMAIN in row then crc(row[FROM_DOMAIN]) else absent)
  }

  datatype Prefilter = Everything | ByDomain(crcs: seq<int>) | ByAddress(crcs: seq<int>)

  predicate Passes(p: Prefilter, e: Entry) {
    match p
    case Everything => true
    case ByDomain(crcs) => e.fromDom in crcs || e.toDom in crcs
    case ByAddress(crcs) => e.fromAddr in crcs || e.toAddr in crcs
  }

  method GetDomCrcs(user: User, crc: string -> int) returns (crcs: seq<int>)
    ensures forall h :: h in crcs <==> exists n :: Administers(user, n, true) && crc(n) == h
  {
    var names := DomainNames(user.domains, true);
    crcs := [];
    for i := 0 to |names|
      invariant forall h :: h in crcs <==> exists n :: n in names[..i] && crc(n) == h
    {
      assert names[..i + 1] == names[..i] + [names[i]];
      crcs := crcs + [crc(names[i])];
    }
    assert names[..|names|] == names;
  }

  /** Hashes of the addresses found in the messages table that are the user's. */
  method GetTaggedAddrs(user: User, table: seq<Row>, crc: string -> int) returns (crcs: seq<int>)
    ensures forall h :: h in crcs <==> exists r, col ::
                r in table && (col == TO_ADDRESS || col == FROM_ADDRESS)
                && col in r && HasAddress(user, r[col]) && crc(r[col]) == h
  {
    crcs := [];
    for i := 0 to |table|
      invariant forall h :: h in crcs <==> exists r, col ::
                    r in table[..i] && (col == TO_ADDRESS || col == FROM_ADDRESS)
                    && col in r && HasAddress(user, r[col]) && crc(r[col]) == h
    {
      var r := table[i];
      assert table[..i + 1] == table[..i] + [r];
      if TO_ADDRESS in r && HasAddress(user, r[TO_ADDRESS]) {
        crcs := crcs + [crc(r[TO_ADDRESS])];
      }
      if FROM_ADDRESS in r && HasAddress(user, r[FROM_ADDRESS]) {
        crcs := crcs + [crc(r[FROM_ADDRESS])];
      }
    }
    assert table[..|table|] == table;
  }

  /** The rule lets the sentinel through but no hash does: the user administers domains, all of them
      inactive, and none of their hashes is the sentinel's. */
  ghost predicate SentinelLost(user: User, crc: string -> int) {
    && user.account == DomainAdmin
    && HasNoDomain(user, false) && !HasNoDomain(user, true)
    && forall n :: Administers(user, n, true) ==> crc(n) != crc(SENTINEL)
  }

  ghost predicate LosesNothing(user: User, p: Prefilter, crc: string -> int, absent: int) {
    forall row :: Visible(user, Either, row) ==> Passes(p, Indexed(row, crc, absent))
  }

  /** For any hash, and whatever the index puts for NULL: over all rows the prefilter of an
      administrator loses no permitted row, but in the sentinel case, and in that case it does lose
      one; the prefilter of an ordinary user loses no permitted row of the live table. */
  method FilterSphinx(user: User, table: seq<Row>, crc: string -> int) returns (p: Prefilter)
    ensures user.account != Ordinary ==>
              forall absent :: LosesNothing(user, p, crc, absent) <==> !SentinelLost(user, crc)
    ensures user.account == Ordinary ==>
              forall row, absent :: row in table && Visible(user, Either, row) ==> Passes(p, Indexed(row, crc, absent))
  {
    p := Everything;
    if user.account == DomainAdmin {
      var crcs := GetDomCrcs(user, crc);
      ghost var hashed := crcs;
      if crcs == [] {
        crcs := crcs + [crc(SENTINEL)];
      }
      p := ByDomain(crcs);
      forall absent
        ensures LosesNothing(user, p, crc, absent) <==> !SentinelLost(user, crc)
      {
        DomainPrefilterExactly(user, crc, hashed, absent);
      }
    }
    if user.account == Ordinary {
      var crcs := GetTaggedAddrs(user, table, crc);
      p := ByAddress(crcs);
    }
  }

  lemma DomainPrefilterExactly(user: User, crc: string -> int, crcs: seq<int>, absent: int)
    requires user.account == DomainAdmin
    requires forall h :: h in crcs <==> exists n :: Administers(user, n, true) && crc(n) == h
    ensures LosesNothing(user, ByDomain(if crcs == [] then [crc(SENTINEL)] else crcs), crc, absent) <==>
              !SentinelLost(user, crc)
  {
    if SentinelLost(user, crc) {
      SentinelRowDropped(user, crc, crcs, absent);
    } else {
      forall n | AllowsDomain(user, n) { AllowedHashed(user, crc, crcs, n); }
    }
  }

  lemma AllowedHashed(user: User, crc: string -> int, crcs: seq<int>, n: string)
    requires user.account == DomainAdmin && !SentinelLost(user, crc) && AllowsDomain(user, n)
    requires forall h :: h in crcs <==> exists n :: Administers(user, n, true) && crc(n) == h
    ensures crc(n) in if crcs == [] then [crc(SENTINEL)] else crcs
  {
    assert crcs != [] ==> crcs[0] in crcs;
    if Administers(user, n, false) {
      assert Administers(user, n, true);
      var h := crc(n);
      assert h in crcs;
    } else if HasNoDomain(user, true) {
      assert forall h :: h !in crcs;
    } else {
      var m :| Administers(user, m, true) && crc(m) == crc(SENTINEL);
      assert crc(m) in crcs;
    }
  }

  const SENTINEL_ROW: Row := map[TO_DOMAIN := SENTINEL, FROM_DOMAIN := SENTINEL]

  /** In the sentinel case the row lost is one between two domains of that name. */
  lemma SentinelRowDropped(user: User, crc: string -> int, crcs: seq<int>, absent: int)
    requires SentinelLost(user, crc)
    requires forall h :: h in crcs <==> exists n :: Administers(user, n, true) && crc(n) == h
    ensures crcs != []
    ensures Visible(user, Either, SENTINEL_ROW) && !Passes(ByDomain(crcs), Indexed(SENTINEL_ROW, crc, absent))
  {
    var n :| Administers(user, n, true);
    assert crc(n) in crcs;
  }

  /** Such users exist: one inactive domain will do. */
  lemma InactiveDomainLosesSentinel(name: string, email: string, crc: string -> int)
    requires crc(name) != crc(SENTINEL)
    ensures SentinelLost(User(DomainAdmin, email, [], [Domain(name, false, [])]), crc)
  {
    var user := User(DomainAdmin, email, [], [Domain(name, false, [])]);
    var d := user.domains[0];
    assert d in user.domains && Names(d, name);
    assert Administers(user, name, true);
  }
}
