/** The order of a policy's rules as they are listed, and which rules are left to enforce. */
module PolicyRules {
  import opened Wrappers
  import opened RuleFile
  import opened Policies
  import opened PolicyIntegrity

  // ----- listings -----

  /** `s` is the set `rs` of rules by descending ordering. */
  predicate Sorted(s: seq<int>, rules: map<int, Rule>, rs: set<int>) {
    && rs <= rules.Keys
    && (forall i :: 0 <= i < |s| ==> s[i] in rs)
    && (forall r :: r in rs ==> r in s)
    && (forall i, j :: 0 <= i < j < |s| ==> rules[s[i]].ordering > rules[s[j]].ordering)
  }

  /** The rules of a policy as they are listed. */
  predicate IsListing(s: seq<int>, st: Store, p: int) { Sorted(s, st.rules, RulesOf(st, p)) }

  lemma SortedTail(s: seq<int>, rules: map<int, Rule>, rs: set<int>)
    requires Sorted(s, rules, rs) && s != []
    ensures Sorted(s[1..], rules, rs - {s[0]})
    ensures s[0] in rs && forall r :: r in rs ==> rules[r].ordering <= rules[s[0]].ordering
  {
    forall r | r in rs && r != s[0]
      ensures r in s[1..] && rules[r].ordering < rules[s[0]].ordering
    {
      var k :| 0 <= k < |s| && s[k] == r;
      assert s[1..][k - 1] == r;
    }
    assert forall i :: 0 <= i < |s[1..]| ==> s[1..][i] == s[i + 1] && s[i + 1] != s[0];
  }

  lemma SortedMember(s: seq<int>, rules: map<int, Rule>, rs: set<int>, r: int)
    requires Sorted(s, rules, rs)
    ensures r in rs <==> r in s
  {
  }

  lemma {:induction false} SortedUnique(s: seq<int>, t: seq<int>, rules: map<int, Rule>, rs: set<int>)
    requires Sorted(s, rules, rs) && Sorted(t, rules, rs)
    requires forall r, q :: r in rs && q in rs && r != q ==> rules[r].ordering != rules[q].ordering
    ensures s == t
  {
    if s != [] { SortedMember(t, rules, rs, s[0]); }
    if t != [] { SortedMember(s, rules, rs, t[0]); }
    if s != [] && t != [] {
      SortedTail(s, rules, rs);
      SortedTail(t, rules, rs);
      assert s[0] == t[0];
      SortedUnique(s[1..], t[1..], rules, rs - {s[0]});
    }
  }

  /** With distinct orderings a policy has exactly one listing. */
  lemma ListingUnique(st: Store, p: int, s: seq<int>, t: seq<int>)
    requires OrderingsDistinct(st) && IsListing(s, st, p) && IsListing(t, st, p)
    ensures s == t
  {
    SortedUnique(s, t, st.rules, RulesOf(st, p));
  }

  lemma {:induction false} SortedExists(rules: map<int, Rule>, rs: set<int>) returns (s: seq<int>)
    requires rs <= rules.Keys
    requires forall r, q :: r in rs && q in rs && r != q ==> rules[r].ordering != rules[q].ordering
    ensures Sorted(s, rules, rs)
    decreases |rs|
  {
    if rs == {} {
      s := [];
    } else {
      var m := MaxExists(rules, rs);
      var r :| r in rs && rules[r].ordering == m;
      var t := SortedExists(rules, rs - {r});
      SortedCons(r, t, rules, rs);
      s := [r] + t;
    }
  }

  lemma SortedCons(r: int, t: seq<int>, rules: map<int, Rule>, rs: set<int>)
    requires rs <= rules.Keys && r in rs && Sorted(t, rules, rs - {r})
    requires forall q :: q in rs && q != r ==> rules[q].ordering < rules[r].ordering
    ensures Sorted([r] + t, rules, rs)
  {
    var s := [r] + t;
    assert forall j :: 0 < j < |s| ==> s[j] == t[j - 1] && t[j - 1] in rs - {r};
    forall q | q in rs
      ensures q in s
    {
      if q != r { assert q in t; }
    }
  }

  lemma ListingExists(st: Store, p: int) returns (s: seq<int>)
    requires OrderingsDistinct(st)
    ensures IsListing(s, st, p)
  {
    s := SortedExists(st.rules, RulesOf(st, p));
  }

  lemma SameRulesSameListing(st: Store, st': Store, p: int, s: seq<int>)
    requires IsListing(s, st, p)
    requires RulesOf(st', p) == RulesOf(st, p)
    requires forall r :: r in RulesOf(st, p) ==> st'.rules[r].ordering == st.rules[r].ordering
    ensures IsListing(s, st', p)
  {
    forall i, j | 0 <= i < j < |s|
      ensures st'.rules[s[i]].ordering > st'.rules[s[j]].ordering
    {
      var a, b := s[i], s[j];
      assert a in RulesOf(st, p) && b in RulesOf(st, p);
      assert st'.rules[a].ordering == st.rules[a].ordering > st.rules[b].ordering == st'.rules[b].ordering;
    }
  }

  /** A new rule heads the listing. */
  lemma AddRuleHeads(st: Store, p: int, form: RuleForm, s: seq<int>)
    requires Intact(st) && p in st.policies && IsListing(s, st, p)
    ensures IsListing([st.nextRule] + s, AddRule(st, p, form).0, p)
  {
    var st' := AddRule(st, p, form).0;
    var t := [st.nextRule] + s;
    assert forall r :: r in RulesOf(st', p) <==> r == st.nextRule || r in RulesOf(st, p);
    forall i, j | 0 <= i < j < |t|
      ensures st'.rules[t[i]].ordering > st'.rules[t[j]].ordering
    {
      assert t[j] == s[j - 1] && s[j - 1] in RulesOf(st, p);
    }
  }

  lemma SortedRemove(s: seq<int>, rules: map<int, Rule>, rs: set<int>, i: nat)
    requires Sorted(s, rules, rs) && i < |s|
    ensures Sorted(s[..i] + s[i + 1..], rules, rs - {s[i]})
  {
    var r, t := s[i], s[..i] + s[i + 1..];
    assert forall k :: 0 <= k < |t| ==> t[k] == s[if k < i then k else k + 1];
    assert forall k :: 0 <= k < |s| && k != i ==> s[k] != r;
    forall q | q in rs - {r}
      ensures q in t
    {
      var k :| 0 <= k < |s| && s[k] == q;
      assert t[if k < i then k else k - 1] == q;
    }
  }

  lemma SortedElsewhere(s: seq<int>, rules: map<int, Rule>, rules': map<int, Rule>, rs: set<int>)
    requires Sorted(s, rules, rs) && rs <= rules'.Keys
    requires forall r :: r in rs ==> rules'[r].ordering == rules[r].ordering
    ensures Sorted(s, rules', rs)
  {
    forall i, j | 0 <= i < j < |s|
      ensures rules'[s[i]].ordering > rules'[s[j]].ordering
    {
      var a, b := s[i], s[j];
      assert a in rs && b in rs;
      assert rules'[a].ordering == rules[a].ordering > rules[b].ordering == rules'[b].ordering;
    }
  }

  /** Deleting a rule takes its one line out and leaves the rest in place. */
  lemma DeleteRuleRemoves(st: Store, p: int, s: seq<int>, i: nat)
    requires Intact(st) && IsListing(s, st, p) && i < |s|
    ensures IsListing(s[..i] + s[i + 1..], DeleteRule(st, s[i]).0, p)
  {
    var r := s[i];
    assert r in RulesOf(st, p);
    var st' := DeleteRule(st, r).0;
    assert RulesOf(st', p) == RulesOf(st, p) - {r};
    SortedRemove(s, st.rules, RulesOf(st, p), i);
    SortedElsewhere(s[..i] + s[i + 1..], st.rules, st'.rules, RulesOf(st', p));
  }

  /** Editing a rule's content moves nothing. */
  lemma EditRuleKeepsListing(st: Store, r: int, form: RuleForm, p: int, s: seq<int>)
    requires Intact(st) && IsListing(s, st, p)
    ensures IsListing(s, EditRule(st, r, form).0, p)
  {
    var st' := EditRule(st, r, form).0;
    assert RulesOf(st', p) == RulesOf(st, p);
    SameRulesSameListing(st, st', p, s);
  }

  lemma NeighbourIs(st: Store, p: int, s: seq<int>, i: nat, up: bool)
    requires IsListing(s, st, p) && i < |s|
    ensures up && i > 0 ==> Neighbour(st, s[i], true, s[i - 1])
    ensures !up && i + 1 < |s| ==> Neighbour(st, s[i], false, s[i + 1])
  {
    assert s[i] in RulesOf(st, p);
    forall x | x in RulesOf(st, p)
      ensures up && i > 0 && Before(st, s[i], x, true) ==> x == s[i - 1] || Before(st, s[i - 1], x, true)
      ensures !up && i + 1 < |s| && Before(st, s[i], x, false) ==> x == s[i + 1] || Before(st, s[i + 1], x, false)
    {
      var k :| 0 <= k < |s| && s[k] == x;
    }
  }

  lemma NeighbourUnique(st: Store, r: int, up: bool, a: int, b: int)
    requires r in st.rules && OrderingsDistinct(st)
    requires Neighbour(st, r, up, a) && Neighbour(st, r, up, b)
    ensures a == b
  {
    assert a in RulesOf(st, st.rules[r].policy) && b in RulesOf(st, st.rules[r].policy);
  }

  lemma MoveIs(st: Store, r: int, up: bool, q: int)
    requires RuleInPolicy(st, r) && OrderingsDistinct(st) && Neighbour(st, r, up, q)
    ensures MoveRule(st, r, up) == (Swapped(st, r, q), Changed)
  {
    var q' :| Neighbour(st, r, up, q') && MoveRule(st, r, up) == (Swapped(st, r, q'), Changed);
    NeighbourUnique(st, r, up, q, q');
  }

  function Exchanged(s: seq<int>, i: nat): seq<int>
    requires i + 1 < |s|
  {
    s[i := s[i + 1]][i + 1 := s[i]]
  }

  lemma SwapListing(st: Store, p: int, s: seq<int>, i: nat)
    requires IsListing(s, st, p) && i + 1 < |s|
    ensures IsListing(Exchanged(s, i), Swapped(st, s[i], s[i + 1]), p)
    ensures Swapped(st, s[i], s[i + 1]) == Swapped(st, s[i + 1], s[i])
  {
    var t := Exchanged(s, i);
    assert s[i] in RulesOf(st, p) && s[i + 1] in RulesOf(st, p);
    var st' := Swapped(st, s[i], s[i + 1]);
    assert st'.rules == Swapped(st, s[i + 1], s[i]).rules;
    assert forall r :: r in RulesOf(st', p) <==> r in RulesOf(st, p);
    forall r | r in RulesOf(st', p)
      ensures r in t
    {
      var k :| 0 <= k < |s| && s[k] == r;
      assert t[if k == i then i + 1 else if k == i + 1 then i else k] == r;
    }
    forall k | 0 <= k < |t|
      ensures st'.rules[t[k]].ordering == st.rules[s[k]].ordering
    {
      assert s[k] in RulesOf(st, p);
    }
  }

  /** Moving a rule exchanges its line with the one above or below; at the end nothing happens. */
  lemma MoveRuleExchanges(st: Store, p: int, s: seq<int>, i: nat, up: bool)
    requires Intact(st) && IsListing(s, st, p) && i < |s|
    ensures var (st', o) := MoveRule(st, s[i], up);
            if up then
              if i == 0 then (st', o) == (st, Unchanged) else o == Changed && IsListing(Exchanged(s, i - 1), st', p)
            else
              if i + 1 == |s| then (st', o) == (st, Unchanged) else o == Changed && IsListing(Exchanged(s, i), st', p)
  {
    assert s[i] in RulesOf(st, p);
    NeighbourIs(st, p, s, i, up);
    if up && i > 0 {
      MoveIs(st, s[i], up, s[i - 1]);
      SwapListing(st, p, s, i - 1);
    } else if !up && i + 1 < |s| {
      MoveIs(st, s[i], up, s[i + 1]);
      SwapListing(st, p, s, i);
    } else {
      NoneBeyond(st, p, s, i, up);
    }
  }

  lemma NoneBeyond(st: Store, p: int, s: seq<int>, i: nat, up: bool)
    requires IsListing(s, st, p) && i < |s| && (if up then i == 0 else i + 1 == |s|)
    requires s[i] in RulesOf(st, p)
    ensures forall q :: !Neighbour(st, s[i], up, q)
  {
    forall q | q in RulesOf(st, p)
      ensures !Before(st, s[i], q, up)
    {
      var k :| 0 <= k < |s| && s[k] == q;
    }
  }

  lemma SwappedBack(st: Store, r: int, up: bool, q: int)
    requires OrderingsDistinct(st) && RuleInPolicy(st, r) && Neighbour(st, r, up, q)
    ensures var st' := Swapped(st, r, q);
            RuleInPolicy(st', r) && Neighbour(st', r, !up, q) && Swapped(st', r, q) == st
  {
    var st', p := Swapped(st, r, q), st.rules[r].policy;
    assert q in RulesOf(st, p) && r != q;
    forall x | x in RulesOf(st', p)
      ensures x in RulesOf(st, p)
      ensures x != r && x != q ==> st'.rules[x] == st.rules[x] && st.rules[x].ordering != st.rules[q].ordering
    {
    }
    assert q in RulesOf(st', p);
    assert Swapped(st', r, q).rules == st.rules;
  }

  /** A move undone by the opposite move restores the store. */
  lemma MoveRoundTrip(st: Store, r: int, up: bool)
    requires Intact(st) && MoveRule(st, r, up).1 == Changed
    ensures MoveRule(MoveRule(st, r, up).0, r, !up) == (st, Changed)
  {
    var st' := MoveRule(st, r, up).0;
    var q :| Neighbour(st, r, up, q) && st' == Swapped(st, r, q);
    MoveRuleIntact(st, r, up);
    SwappedBack(st, r, up, q);
    MoveIs(st', r, !up, q);
  }

  // ----- cloning the default -----

  lemma NonBareFrom(data: seq<FileRule>, i: nat)
    requires i < |data|
    ensures NonBare(data[i..]) == (if Bare(data[i]) then [] else [data[i]]) + NonBare(data[i + 1..])
  {
    assert data[i..][1..] == data[i + 1..];
  }

  /** The listing shows the default lines of `rules` from last to first, then those of `s`. */
  predicate Lists(st: Store, t: seq<int>, rules: seq<FileRule>, s: seq<int>) {
    && |t| == |rules| + |s| && t[|rules|..] == s
    && (forall k :: 0 <= k < |t| ==> t[k] in st.rules)
    && forall k :: 0 <= k < |rules| ==> Shown(st.rules[t[k]].form) == DefaultEntry(rules[|rules| - 1 - k])
  }

  lemma {:induction false} WithRulesListing(st: Store, p: int, data: seq<FileRule>, i: nat, s: seq<int>)
    returns (t: seq<int>)
    requires Intact(st) && p in st.policies && i <= |data| && IsListing(s, st, p)
    requires forall r :: r in RulesOf(st, p) ==> st.rules[r].ordering < i
    ensures IsListing(t, WithRules(st, p, data, i), p)
    ensures Lists(WithRules(st, p, data, i), t, NonBare(data[i..]), s)
    ensures forall r :: r in st.rules ==>
              r in WithRules(st, p, data, i).rules && WithRules(st, p, data, i).rules[r] == st.rules[r]
    decreases |data| - i
  {
    if i == |data| {
      t := s;
    } else {
      NonBareFrom(data, i);
      if Bare(data[i]) {
        t := WithRulesListing(st, p, data, i + 1, s);
      } else {
        var form := Imported(data[i]).value;
        AppendedIntact(st, p, i, form);
        AppendedListing(st, p, i, form, s);
        t := WithRulesListing(Appended(st, p, i, form), p, data, i + 1, [st.nextRule] + s);
        ListsOneMore(WithRules(st, p, data, i), t, data[i], NonBare(data[i + 1..]), st.nextRule, s);
      }
    }
  }

  function Appended(st: Store, p: int, ordering: int, form: RuleForm): Store {
    st.(rules := st.rules[st.nextRule := Rule(p, ordering, form)], nextRule := st.nextRule + 1)
  }

  lemma AppendedListing(st: Store, p: int, ordering: int, form: RuleForm, s: seq<int>)
    requires Intact(st) && p in st.policies && IsListing(s, st, p)
    requires forall r :: r in RulesOf(st, p) ==> st.rules[r].ordering < ordering
    ensures IsListing([st.nextRule] + s, Appended(st, p, ordering, form), p)
    ensures forall r :: r in RulesOf(Appended(st, p, ordering, form), p) ==>
              Appended(st, p, ordering, form).rules[r].ordering < ordering + 1
  {
    var st' := Appended(st, p, ordering, form);
    var t := [st.nextRule] + s;
    assert forall r :: r in RulesOf(st', p) <==> r == st.nextRule || r in RulesOf(st, p);
    forall i, j | 0 <= i < j < |t|
      ensures st'.rules[t[i]].ordering > st'.rules[t[j]].ordering
    {
      assert t[j] == s[j - 1] && s[j - 1] in RulesOf(st, p);
    }
  }

  lemma ListsOneMore(st: Store, t: seq<int>, r: FileRule, rest: seq<FileRule>, id: int, s: seq<int>)
    requires Lists(st, t, rest, [id] + s)
    requires id in st.rules && !Bare(r) && st.rules[id].form == Imported(r).value
    ensures Lists(st, t, [r] + rest, s)
  {
    var n := |rest|;
    assert t[n] == t[n..][0] == id;
    assert t[n + 1..] == t[n..][1..] == s;
    forall k | 0 <= k < n + 1
      ensures Shown(st.rules[t[k]].form) == DefaultEntry(([r] + rest)[n - k])
    {
      if k < n { assert ([r] + rest)[n - k] == rest[n - 1 - k]; }
    }
  }

  /** The listing as displayed. */
  function ShownListing(st: Store, t: seq<int>): seq<Entry>
    requires forall k :: 0 <= k < |t| ==> t[k] in st.rules
  {
    seq(|t|, k requires 0 <= k < |t| => Shown(st.rules[t[k]].form))
  }

  /** A fresh clone, listed, shows what the default's display shows with bare renames left out, if (and,
      by `FilteredExactly`, only if) no line spells its action like the internal name of a rename. */
  lemma CloneListsDefault(st: Store, name: string, kind: Kind, data: seq<FileRule>) returns (t: seq<int>)
    requires Intact(st) && NameFree(st, name, {})
    ensures IsListing(t, ClonePolicy(st, name, kind, data).0, st.nextPolicy)
    ensures ShownListing(ClonePolicy(st, name, kind, data).0, t) == Displayed(NonBare(data))
    ensures ShownListing(ClonePolicy(st, name, kind, data).0, t) == WithoutBare(Displayed(data)) <==> NoneSpelled(data)
  {
    t := CloneLists(st, name, kind, data);
    FilteredExactly(data);
    assert ShownListing(ClonePolicy(st, name, kind, data).0, t) == Displayed(NonBare(data));
  }

  lemma CloneLists(st: Store, name: string, kind: Kind, data: seq<FileRule>) returns (t: seq<int>)
    requires Intact(st) && NameFree(st, name, {})
    ensures IsListing(t, ClonePolicy(st, name, kind, data).0, st.nextPolicy)
    ensures Lists(ClonePolicy(st, name, kind, data).0, t, NonBare(data), [])
  {
    var st1 := AddPolicy(st, name, kind).0;
    AddPolicyIntact(st, name, kind);
    assert forall r :: r in st.rules ==> st.rules[r].policy in st.policies && st.rules[r].policy < st.nextPolicy;
    assert RulesOf(st1, st.nextPolicy) == {};
    assert data[0..] == data;
    t := WithRulesListing(st1, st.nextPolicy, data, 0, []);
  }

  // ----- rules left to enforce -----

  /** Every enabled policy has an enabled rule. */
  predicate Live(st: Store) { forall p :: p in st.policies && st.policies[p].enabled ==> HasEnabledRule(st, p) }

  /** The only enabled rule, but not the only rule, of an enabled policy. */
  predicate LastEnabled(st: Store, r: int) {
    && RuleInPolicy(st, r)
    && st.rules[r].form.enabled
    && st.policies[st.rules[r].policy].enabled
    && |RulesOf(st, st.rules[r].policy)| != 1
    && forall q :: q in RulesOf(st, st.rules[r].policy) && q != r ==> !st.rules[q].form.enabled
  }

  predicate Strands(st: Store, op: Op) {
    match op
    case OpEditRule(r, form) => LastEnabled(st, r) && !form.enabled
    case OpDeleteRule(r) => LastEnabled(st, r)
    case _ => false
  }

  lemma LiveUnless(st: Store, st': Store, p: int)
    requires Live(st)
    requires forall q :: q in st'.policies && q != p && st'.policies[q].enabled ==>
              q in st.policies && st.policies[q].enabled
    requires forall r :: r in st.rules && st.rules[r].policy != p ==>
               r in st'.rules && st'.rules[r].policy == st.rules[r].policy && st'.rules[r].form == st.rules[r].form
    requires p in st'.policies && st'.policies[p].enabled ==> HasEnabledRule(st', p)
    ensures Live(st')
  {
    forall q | q in st'.policies && st'.policies[q].enabled
      ensures HasEnabledRule(st', q)
    {
      if q != p {
        assert HasEnabledRule(st, q);
        var r :| r in st.rules && st.rules[r].policy == q && st.rules[r].form.enabled;
        assert st'.rules[r].form.enabled;
      }
    }
  }

  lemma {:induction false} WithRulesKeeps(st: Store, p: int, data: seq<FileRule>, i: nat)
    requires i <= |data| && forall r :: r in st.rules ==> r < st.nextRule
    ensures var st' := WithRules(st, p, data, i);
            st'.policies == st.policies && forall r :: r in st.rules ==> r in st'.rules && st'.rules[r] == st.rules[r]
    decreases |data| - i
  {
    if i < |data| {
      match Imported(data[i])
      case None => WithRulesKeeps(st, p, data, i + 1);
      case Some(form) =>
        WithRulesKeeps(Appended(st, p, i, form), p, data, i + 1);
    }
  }

  lemma EditRuleLive(st: Store, r: int, form: RuleForm)
    requires Intact(st) && Live(st)
    ensures Live(EditRule(st, r, form).0) <==> !Strands(st, OpEditRule(r, form))
  {
    var (st', o) := EditRule(st, r, form);
    if o == Changed {
      var p := st.rules[r].policy;
      assert r in RulesOf(st, p);
      if Strands(st, OpEditRule(r, form)) {
        assert st'.policies[p].enabled;
        forall q | q in st'.rules && st'.rules[q].policy == p
          ensures !st'.rules[q].form.enabled
        {
          assert q in RulesOf(st, p);
        }
        assert !HasEnabledRule(st', p);
      } else {
        if st'.policies[p].enabled {
          if form.enabled {
            assert st'.rules[r].form.enabled;
          } else if st.rules[r].form.enabled {
            var q :| q in RulesOf(st, p) && q != r && st.rules[q].form.enabled;
            assert st'.rules[q].form.enabled;
          } else {
            assert HasEnabledRule(st, p);
            var q :| q in st.rules && st.rules[q].policy == p && st.rules[q].form.enabled;
            assert st'.rules[q].form.enabled;
          }
        }
        LiveUnless(st, st', p);
      }
    }
  }

  lemma DeleteRuleLive(st: Store, r: int)
    requires Intact(st) && Live(st)
    ensures Live(DeleteRule(st, r).0) <==> !Strands(st, OpDeleteRule(r))
  {
    var (st', o) := DeleteRule(st, r);
    if o == Changed {
      var p := st.rules[r].policy;
      assert r in RulesOf(st, p);
      if Strands(st, OpDeleteRule(r)) {
        assert st'.policies[p].enabled;
        forall q | q in st'.rules && st'.rules[q].policy == p
          ensures !st'.rules[q].form.enabled
        {
          assert q in RulesOf(st, p);
        }
        assert !HasEnabledRule(st', p);
      } else {
        if st'.policies[p].enabled {
          if st.rules[r].form.enabled {
            var q :| q in RulesOf(st, p) && q != r && st.rules[q].form.enabled;
            assert st'.rules[q].form.enabled;
          } else {
            assert HasEnabledRule(st, p);
            var q :| q in st.rules && st.rules[q].policy == p && st.rules[q].form.enabled;
            assert st'.rules[q].form.enabled;
          }
        }
        LiveUnless(st, st', p);
      }
    }
  }

  lemma ClonePolicyLive(st: Store, name: string, kind: Kind, data: seq<FileRule>)
    requires Intact(st) && Live(st)
    ensures Live(ClonePolicy(st, name, kind, data).0)
  {
    if NameFree(st, name, {}) {
      WithRulesKeeps(AddPolicy(st, name, kind).0, st.nextPolicy, data, 0);
    }
    LiveUnless(st, ClonePolicy(st, name, kind, data).0, st.nextPolicy);
  }

  lemma EditPolicyLive(st: Store, p: int, name: string, enabled: bool)
    requires Intact(st) && Live(st)
    ensures Live(EditPolicy(st, p, name, enabled).0)
  {
    LiveUnless(st, EditPolicy(st, p, name, enabled).0, p);
  }

  lemma DeletePolicyLive(st: Store, p: int)
    requires Intact(st) && Live(st)
    ensures Live(DeletePolicy(st, p).0)
  {
    LiveUnless(st, DeletePolicy(st, p).0, p);
  }

  lemma AddRuleLive(st: Store, p: int, form: RuleForm)
    requires Intact(st) && Live(st)
    ensures Live(AddRule(st, p, form).0)
  {
    var st' := AddRule(st, p, form).0;
    if p in st.policies && st.policies[p].enabled {
      assert HasEnabledRule(st, p);
      var r :| r in st.rules && st.rules[r].policy == p && st.rules[r].form.enabled;
      assert st'.rules[r].form.enabled;
    }
    LiveUnless(st, st', p);
  }

  /** An enabled policy keeps an enabled rule under exactly the operations that do not take its last
      enabled rule away while disabled ones remain: the guards count rules, not enabled rules. */
  lemma LiveExactly(st: Store, op: Op)
    requires Intact(st) && Live(st)
    ensures Live(Apply(st, op).0) <==> !Strands(st, op)
  {
    match op
    case OpAddPolicy(name, kind) => LiveUnless(st, AddPolicy(st, name, kind).0, st.nextPolicy);
    case OpClonePolicy(name, kind, data) => ClonePolicyLive(st, name, kind, data);
    case OpEditPolicy(p, name, enabled) => EditPolicyLive(st, p, name, enabled);
    case OpDeletePolicy(p) => DeletePolicyLive(st, p);
    case OpAddRule(p, form) => AddRuleLive(st, p, form);
    case OpEditRule(r, form) => EditRuleLive(st, r, form);
    case OpDeleteRule(r) => DeleteRuleLive(st, r);
    case OpMoveRule(r, up) => MoveRuleLive(st, r, up);
    case OpSaveGlobal(s) => LiveUnless(st, SaveGlobal(st, s).0, 0);
    case OpSaveDomain(d, s) => LiveUnless(st, SaveDomain(st, d, s).0, 0);
  }

  /** An enabled policy has an enabled rule before and after every operation of the sequence. */
  ghost predicate AlwaysLive(st: Store, ops: seq<Op>)
    decreases |ops|
  {
    Live(st) && (ops == [] || AlwaysLive(Apply(st, ops[0]).0, ops[1..]))
  }

  ghost predicate NeverStrands(st: Store, ops: seq<Op>)
    decreases |ops|
  {
    ops == [] || (!Strands(st, ops[0]) && NeverStrands(Apply(st, ops[0]).0, ops[1..]))
  }

  /** Over any sequence of operations: it stays so until, at its turn, an operation strands a policy. */
  lemma {:induction false} AlwaysLiveExactly(st: Store, ops: seq<Op>)
    requires Intact(st) && Live(st)
    ensures AlwaysLive(st, ops) <==> NeverStrands(st, ops)
    decreases |ops|
  {
    if ops != [] {
      LiveExactly(st, ops[0]);
      ApplyIntact(st, ops[0]);
      if !Strands(st, ops[0]) { AlwaysLiveExactly(Apply(st, ops[0]).0, ops[1..]); }
    }
  }

  lemma MoveRuleLive(st: Store, r: int, up: bool)
    requires Intact(st) && Live(st)
    ensures Live(MoveRule(st, r, up).0)
  {
    var (st', o) := MoveRule(st, r, up);
    if o == Changed {
      var q :| Neighbour(st, r, up, q) && st' == Swapped(st, r, q);
      LiveUnless(st, st', 0);
    }
  }

  /** Enabled or not, the policy has no enabled rule. */
  predicate Stranded(st: Store, p: int) { p in st.policies && !HasEnabledRule(st, p) }

  /** What can end that: an enabled rule, or the policy's deletion. */
  predicate Revives(st: Store, p: int, op: Op) {
    match op
    case OpAddRule(q, form) => q == p && form.enabled
    case OpEditRule(r, form) => r in st.rules && st.rules[r].policy == p && form.enabled
    case OpDeletePolicy(q) => q == p
    case _ => false
  }

  lemma OtherRulesStranded(st: Store, st': Store, p: int)
    requires Stranded(st, p) && p in st'.policies
    requires forall r :: r in st'.rules && st'.rules[r].policy == p && st'.rules[r].form.enabled ==>
               r in st.rules && st.rules[r].policy == p && st.rules[r].form.enabled
    ensures Stranded(st', p)
  {
  }

  /** From one operation to the next: nothing but what revives the policy ends its state. */
  lemma StrandedExactly(st: Store, p: int, op: Op)
    requires Intact(st) && Stranded(st, p)
    ensures Stranded(Apply(st, op).0, p) <==> !Revives(st, p, op)
    ensures !Revives(st, p, op) ==> KeepsAway(st, Apply(st, op).0, p)
  {
    var st' := Apply(st, op).0;
    match op
    case OpClonePolicy(name, kind, data) => CloneStranded(st, p, name, kind, data);
    case OpDeletePolicy(q) => if q != p { OtherRulesStranded(st, st', p); }
    case OpAddRule(q, form) => AddRuleStranded(st, p, q, form);
    case OpEditRule(r, form) => EditRuleStranded(st, p, r, form);
    case OpDeleteRule(r) => OtherRulesStranded(st, st', p);
    case _ => OtherOpStranded(st, p, op);
  }

  lemma OtherOpStranded(st: Store, p: int, op: Op)
    requires Intact(st) && Stranded(st, p)
    requires op.OpAddPolicy? || op.OpEditPolicy? || op.OpMoveRule? || op.OpSaveGlobal? || op.OpSaveDomain?
    ensures var st' := Apply(st, op).0; Stranded(st', p) && KeepsAway(st, st', p)
  {
    OtherRulesStranded(st, Apply(st, op).0, p);
  }

  /** The policy keeps its name and is not enabled. */
  predicate KeepsAway(st: Store, st': Store, p: int)
    requires p in st.policies
  {
    && p in st'.policies
    && st'.policies[p].name == st.policies[p].name && (st'.policies[p].enabled ==> st.policies[p].enabled)
  }

  lemma CloneStranded(st: Store, p: int, name: string, kind: Kind, data: seq<FileRule>)
    requires Intact(st) && Stranded(st, p)
    ensures var st' := ClonePolicy(st, name, kind, data).0;
            Stranded(st', p) && st'.policies[p] == st.policies[p]
  {
    if NameFree(st, name, {}) {
      WithRulesElsewhere(AddPolicy(st, name, kind).0, st.nextPolicy, data, 0);
    }
  }

  lemma {:induction false} WithRulesElsewhere(st: Store, p: int, data: seq<FileRule>, i: nat)
    requires i <= |data|
    ensures var st' := WithRules(st, p, data, i);
            && st'.policies == st.policies
            && forall r :: r in st'.rules && st'.rules[r].policy != p ==> r in st.rules && st.rules[r] == st'.rules[r]
    decreases |data| - i
  {
    if i < |data| {
      match Imported(data[i])
      case None => WithRulesElsewhere(st, p, data, i + 1);
      case Some(form) => WithRulesElsewhere(Appended(st, p, i, form), p, data, i + 1);
    }
  }

  lemma AddRuleStranded(st: Store, p: int, q: int, form: RuleForm)
    requires Intact(st) && Stranded(st, p)
    ensures var st' := AddRule(st, q, form).0;
            && (Stranded(st', p) <==> !(q == p && form.enabled))
            && p in st'.policies && st'.policies[p] == st.policies[p]
  {
    var st' := AddRule(st, q, form).0;
    if q == p && form.enabled {
      assert st'.rules[st.nextRule].form.enabled;
    }
  }

  lemma EditRuleStranded(st: Store, p: int, r: int, form: RuleForm)
    requires Intact(st) && Stranded(st, p)
    ensures var st' := EditRule(st, r, form).0;
            && (Stranded(st', p) <==> !Revives(st, p, OpEditRule(r, form)))
            && p in st'.policies && st'.policies[p].name == st.policies[p].name
            && (st'.policies[p].enabled ==> st.policies[p].enabled)
  {
    var st' := EditRule(st, r, form).0;
    if Revives(st, p, OpEditRule(r, form)) {
      assert st.rules[r].form != form;
      assert st'.rules[r].form.enabled;
    } else {
      OtherRulesStranded(st, st', p);
    }
  }

  /** No operation of the sequence revives the policy at its turn. */
  ghost predicate NeverRevived(st: Store, p: int, ops: seq<Op>)
    decreases |ops|
  {
    ops == [] || (!Revives(st, p, ops[0]) && NeverRevived(Apply(st, ops[0]).0, p, ops[1..]))
  }

  /** Over any sequence of operations, until one gives it an enabled rule or deletes it, the policy keeps its
      name, is not enabled again, and rejects every edit: its form has lost the enabled field. */
  lemma {:induction false} StrandedIsStuck(st: Store, p: int, ops: seq<Op>, name: string, enabled: bool)
    requires Intact(st) && Stranded(st, p) && NeverRevived(st, p, ops)
    ensures var st' := Run(st, ops);
            && Stranded(st', p) && KeepsAway(st, st', p)
            && EditPolicy(st', p, name, enabled).0 == st'
            && (EditPolicy(st', p, name, enabled).1 == AttributeError <==> name != st.policies[p].name)
    decreases |ops|
  {
    if ops != [] {
      var st1 := Apply(st, ops[0]).0;
      StrandedExactly(st, p, ops[0]);
      ApplyIntact(st, ops[0]);
      StrandedIsStuck(st1, p, ops[1..], name, enabled);
    }
  }

  // ----- such states are reached -----

  const RULE := RuleForm("", "", "deny", None, true)

  /** One policy with two rules, the second disabled. */
  function TwoRules(enabled: bool): Store {
    Store(map[1 := Policy("p", Filename, enabled)],
          map[1 := Rule(1, 0, RULE), 2 := Rule(1, 1, RULE.(enabled := false))],
          Slots(0, 0, 0, 0), [], 2, 3)
  }

  /** Adding the policy and its rules, then enabling it. */
  const STRANDING := [
    OpAddPolicy("p", Filename), OpAddRule(1, RULE), OpAddRule(1, RULE.(enabled := false)), OpEditPolicy(1, "p", true)
  ]

  lemma TwoRulesReached()
    ensures Run(INITIAL, STRANDING[..3]) == TwoRules(false)
  {
    var st1 := AddPolicy(INITIAL, "p", Filename).0;
    assert RulesOf(st1, 1) == {};
    var st2 := AddRule(st1, 1, RULE).0;
    assert st2.rules == map[1 := Rule(1, 0, RULE)];
    assert RulesOf(st2, 1) == {1};
    var st3 := AddRule(st2, 1, RULE.(enabled := false)).0;
    assert NextOrdering(st2, 1) == 1 by { assert IsMax(st2, 1, NextOrdering(st2, 1) - 1); }
    assert st3.rules == TwoRules(false).rules;
    var op1, op2, op3 := STRANDING[0], STRANDING[1], STRANDING[2];
    assert STRANDING[..3] == ([] + [op1] + [op2]) + [op3];
    RunAppend(INITIAL, [], op1);
    RunAppend(INITIAL, [] + [op1], op2);
    RunAppend(INITIAL, [] + [op1] + [op2], op3);
  }

  lemma {:induction false} RunAppend(st: Store, a: seq<Op>, op: Op)
    ensures Run(st, a + [op]) == Apply(Run(st, a), op).0
    decreases |a|
  {
    if a == [] {
      assert a + [op] == [op] && [op][1..] == [];
    } else {
      assert (a + [op])[1..] == a[1..] + [op];
      RunAppend(Apply(st, a[0]).0, a[1..], op);
    }
  }

  /** An enabled policy does come to be without an enabled rule: when, next, its enabled rule is deleted. */
  lemma StrandingHappens()
    ensures var st := Run(INITIAL, STRANDING);
            && Live(st) && Strands(st, OpDeleteRule(1))
            && var st' := DeleteRule(st, 1).0; Stranded(st', 1) && st'.policies[1].enabled
  {
    TwoRulesReached();
    assert STRANDING == STRANDING[..3] + [STRANDING[3]];
    RunAppend(INITIAL, STRANDING[..3], STRANDING[3]);
    var st := TwoRules(false);
    assert st.rules[1].form.enabled;
    assert EditPolicy(st, 1, "p", true).0 == TwoRules(true);
    var st1 := TwoRules(true);
    assert st1.rules[1].form.enabled;
    assert RulesOf(st1, 1) == {1, 2};
  }
}
