/** What every policy operation keeps, and so every sequence of them. */
module PolicyIntegrity {
  import opened Wrappers
  import opened RuleFile
  import opened Policies

  predicate Numbered(st: Store) {
    && 0 < st.nextPolicy
    && (forall p :: p in st.policies ==> 0 < p < st.nextPolicy)
    && (forall r :: r in st.rules ==> r < st.nextRule && st.rules[r].policy in st.policies)
  }

  /** Each nonzero slot, global or of a domain, names an existing enabled policy of its kind. */
  predicate References(st: Store) {
    AllOffered(st, st.settings) && forall i :: 0 <= i < |st.domains| ==> AllOffered(st, st.domains[i].slots)
  }

  predicate HasRule(st: Store, p: int) { exists r :: r in st.rules && st.rules[r].policy == p }

  predicate EnabledHaveRules(st: Store) { forall p :: p in st.policies && st.policies[p].enabled ==> HasRule(st, p) }

  predicate OrderingsDistinct(st: Store) {
    forall r, q :: r in st.rules && q in st.rules && r != q && st.rules[r].policy == st.rules[q].policy ==>
      st.rules[r].ordering != st.rules[q].ordering
  }

  predicate NamesDistinct(st: Store) {
    forall p, q :: p in st.policies && q in st.policies && p != q ==> st.policies[p].name != st.policies[q].name
  }

  predicate OneRowPerDomain(st: Store) {
    forall i, j :: 0 <= i < j < |st.domains| ==> st.domains[i].domain != st.domains[j].domain
  }

  predicate Intact(st: Store) {
    && Numbered(st) && References(st) && EnabledHaveRules(st)
    && OrderingsDistinct(st) && NamesDistinct(st) && OneRowPerDomain(st)
  }

  // ----- deselecting a policy -----

  /** The other policies can be selected as before. */
  predicate OthersStay(st: Store, st': Store, p: int) {
    forall q :: q in st.policies && q != p ==>
      && q in st'.policies
      && st'.policies[q].kind == st.policies[q].kind && st'.policies[q].enabled == st.policies[q].enabled
  }

  lemma ClearedOffered(st: Store, st': Store, s: Slots, p: int)
    requires p in st.policies && p != 0 && AllOffered(st, s) && OthersStay(st, st', p)
    ensures AllOffered(st', Cleared(s, st.policies[p].kind, p))
  {
    var k := st.policies[p].kind;
    var s' := Cleared(s, k, p);
    forall j
      ensures Offered(st', j, s'.Get(j))
    {
      assert Offered(st, j, s.Get(j));
      assert s'.Get(j) == if j == k && s.Get(j) == p then 0 else s.Get(j);
    }
  }

  lemma RetiredReferences(st: Store, st': Store, p: int)
    requires p in st.policies && p != 0 && References(st) && OthersStay(st, st', p)
    requires st'.settings == Cleared(st.settings, st.policies[p].kind, p)
    requires st'.domains == ClearedRows(st.domains, st.policies[p].kind, p)
    ensures References(st')
    ensures OneRowPerDomain(st) ==> OneRowPerDomain(st')
  {
    ClearedOffered(st, st', st.settings, p);
    forall i | 0 <= i < |st.domains| { ClearedOffered(st, st', st.domains[i].slots, p); }
  }

  lemma SameReferences(st: Store, st': Store)
    requires References(st) && OthersStay(st, st', 0) && 0 !in st.policies
    requires st'.settings == st.settings && st'.domains == st.domains
    ensures References(st')
  {
    forall s | AllOffered(st, s)
      ensures AllOffered(st', s)
    {
      assert forall j :: Offered(st, j, s.Get(j)) ==> Offered(st', j, s.Get(j));
    }
  }

  // ----- one operation at a time -----

  lemma AddPolicyIntact(st: Store, name: string, kind: Kind)
    requires Intact(st)
    ensures Intact(AddPolicy(st, name, kind).0)
  {
    var st' := AddPolicy(st, name, kind).0;
    SameReferences(st, st');
  }

  lemma {:induction false} WithRulesIntact(st: Store, p: int, data: seq<FileRule>, i: nat)
    requires Intact(st) && p in st.policies && i <= |data|
    requires forall r :: r in RulesOf(st, p) ==> st.rules[r].ordering < i
    ensures Intact(WithRules(st, p, data, i))
    decreases |data| - i
  {
    if i < |data| {
      if Imported(data[i]).None? {
        WithRulesIntact(st, p, data, i + 1);
      } else {
        var st1 := st.(rules := st.rules[st.nextRule := Rule(p, i, Imported(data[i]).value)],
                       nextRule := st.nextRule + 1);
        AppendedIntact(st, p, i, Imported(data[i]).value);
        WithRulesIntact(st1, p, data, i + 1);
      }
    }
  }

  lemma AppendedIntact(st: Store, p: int, ordering: int, form: RuleForm)
    requires Intact(st) && p in st.policies
    requires forall r :: r in RulesOf(st, p) ==> st.rules[r].ordering < ordering
    ensures Intact(st.(rules := st.rules[st.nextRule := Rule(p, ordering, form)], nextRule := st.nextRule + 1))
  {
    var st' := st.(rules := st.rules[st.nextRule := Rule(p, ordering, form)], nextRule := st.nextRule + 1);
    SameReferences(st, st');
    forall r | r in st.rules && st.rules[r].policy == p
      ensures st.rules[r].ordering < ordering
    {
      assert r in RulesOf(st, p);
    }
    forall q | q in st'.policies && st'.policies[q].enabled
      ensures HasRule(st', q)
    {
      var r :| r in st.rules && st.rules[r].policy == q;
      assert st'.rules[r].policy == q;
    }
  }

  lemma ClonePolicyIntact(st: Store, name: string, kind: Kind, data: seq<FileRule>)
    requires Intact(st)
    ensures Intact(ClonePolicy(st, name, kind, data).0)
  {
    AddPolicyIntact(st, name, kind);
    if NameFree(st, name, {}) {
      WithRulesIntact(AddPolicy(st, name, kind).0, st.nextPolicy, data, 0);
    }
  }

  lemma EditPolicyIntact(st: Store, p: int, name: string, enabled: bool)
    requires Intact(st)
    ensures Intact(EditPolicy(st, p, name, enabled).0)
  {
    var (st', o) := EditPolicy(st, p, name, enabled);
    if o == Changed {
      if enabled {
        forall s | AllOffered(st, s)
          ensures AllOffered(st', s)
        {
          assert forall j :: Offered(st, j, s.Get(j)) ==> Offered(st', j, s.Get(j));
        }
      } else {
        RetiredReferences(st, st', p);
      }
      EnabledKeepRules(st, st', p);
    }
  }

  /** Policies other than `p` keep their rules and their state. */
  lemma EnabledKeepRules(st: Store, st': Store, p: int)
    requires EnabledHaveRules(st) && st'.policies.Keys <= st.policies.Keys
    requires forall q :: q in st'.policies && q != p && st'.policies[q].enabled ==> st.policies[q].enabled
    requires forall r :: r in st.rules && st.rules[r].policy != p ==>
              r in st'.rules && st'.rules[r].policy == st.rules[r].policy
    requires p in st'.policies && st'.policies[p].enabled ==> HasRule(st', p)
    ensures EnabledHaveRules(st')
  {
    forall q | q in st'.policies && st'.policies[q].enabled
      ensures HasRule(st', q)
    {
      if q != p {
        assert HasRule(st, q);
        var r :| r in st.rules && st.rules[r].policy == q;
        assert st'.rules[r].policy == q;
      }
    }
  }

  lemma DeletePolicyIntact(st: Store, p: int)
    requires Intact(st)
    ensures Intact(DeletePolicy(st, p).0)
  {
    if p in st.policies {
      var st' := DeletePolicy(st, p).0;
      RetiredReferences(st, st', p);
      assert forall r :: r in st'.rules ==> r in st.rules && r !in RulesOf(st, p) && st'.rules[r] == st.rules[r];
      EnabledKeepRules(st, st', p);
    }
  }

  lemma AddRuleIntact(st: Store, p: int, form: RuleForm)
    requires Intact(st)
    ensures Intact(AddRule(st, p, form).0)
  {
    if p in st.policies {
      AppendedIntact(st, p, NextOrdering(st, p), form);
    }
  }

  lemma DisabledIntact(st: Store, p: int)
    requires Intact(st) && p in st.policies
    ensures Intact(Disabled(st, p))
  {
    RetiredReferences(st, Disabled(st, p), p);
    EnabledKeepRules(st, Disabled(st, p), p);
  }

  lemma EditRuleIntact(st: Store, r: int, form: RuleForm)
    requires Intact(st)
    ensures Intact(EditRule(st, r, form).0)
  {
    var (st', o) := EditRule(st, r, form);
    if o == Changed {
      var p := st.rules[r].policy;
      DisabledIntact(st, p);
      var st1 := if !form.enabled && |RulesOf(st, p)| == 1 then Disabled(st, p) else st;
      assert 0 !in st1.policies;
      SameReferences(st1, st');
      assert st'.rules[r].policy == p;
      EnabledKeepRules(st1, st', p);
    }
  }

  lemma DeleteRuleIntact(st: Store, r: int)
    requires Intact(st)
    ensures Intact(DeleteRule(st, r).0)
  {
    var (st', o) := DeleteRule(st, r);
    if o == Changed {
      var p := st.rules[r].policy;
      DisabledIntact(st, p);
      var st1 := if |RulesOf(st, p)| == 1 then Disabled(st, p) else st;
      SameReferences(st1, st');
      if |RulesOf(st, p)| != 1 {
        AnotherRule(st, r);
        var q :| q in st.rules && q != r && st.rules[q].policy == p;
        assert q in st'.rules;
      }
      EnabledKeepRules(st1, st', p);
    }
  }

  lemma AnotherRule(st: Store, r: int)
    requires r in st.rules && |RulesOf(st, st.rules[r].policy)| != 1
    ensures exists q :: q in st.rules && q != r && st.rules[q].policy == st.rules[r].policy
  {
    var rs := RulesOf(st, st.rules[r].policy);
    assert r in rs;
    assert |rs - {r}| == |rs| - 1;
    assert (forall q :: q !in rs - {r}) ==> rs - {r} == {};
    var q :| q in rs - {r};
  }

  lemma MoveRuleIntact(st: Store, r: int, up: bool)
    requires Intact(st)
    ensures Intact(MoveRule(st, r, up).0)
  {
    var (st', o) := MoveRule(st, r, up);
    if o == Changed {
      var q :| Neighbour(st, r, up, q) && st' == Swapped(st, r, q);
      SwappedIntact(st, r, q);
    }
  }

  lemma SwappedIntact(st: Store, r: int, q: int)
    requires Intact(st) && r in st.rules && q in st.rules && r != q && st.rules[q].policy == st.rules[r].policy
    ensures Intact(Swapped(st, r, q))
  {
    var st' := Swapped(st, r, q);
    SameReferences(st, st');
    assert forall x :: x in st.rules ==> x in st'.rules && st'.rules[x].policy == st.rules[x].policy;
    EnabledKeepRules(st, st', 0);
  }

  lemma SaveGlobalIntact(st: Store, form: Slots)
    requires Intact(st)
    ensures Intact(SaveGlobal(st, form).0)
  {
    var st' := SaveGlobal(st, form).0;
    SameOffers(st, st');
  }

  lemma SameOffers(st: Store, st': Store)
    requires st'.policies == st.policies
    ensures forall s :: AllOffered(st, s) ==> AllOffered(st', s)
  {
    forall s | AllOffered(st, s)
      ensures AllOffered(st', s)
    {
      assert forall j :: Offered(st, j, s.Get(j)) ==> Offered(st', j, s.Get(j));
    }
  }

  lemma {:induction false} WithRowOffered(st: Store, rows: seq<DomainRow>, d: int, form: Slots)
    requires AllOffered(st, form) && forall i :: 0 <= i < |rows| ==> AllOffered(st, rows[i].slots)
    requires forall i, j :: 0 <= i < j < |rows| ==> rows[i].domain != rows[j].domain
    ensures forall i :: 0 <= i < |WithRow(rows, d, form)| ==> AllOffered(st, WithRow(rows, d, form)[i].slots)
    ensures forall i, j :: 0 <= i < j < |WithRow(rows, d, form)| ==>
              WithRow(rows, d, form)[i].domain != WithRow(rows, d, form)[j].domain
    ensures forall i :: 0 <= i < |WithRow(rows, d, form)| ==>
              || WithRow(rows, d, form)[i].domain == d
              || exists j :: 0 <= j < |rows| && rows[j].domain == WithRow(rows, d, form)[i].domain
  {
    if rows != [] && rows[0].domain != d {
      WithRowOffered(st, rows[1..], d, form);
    }
  }

  lemma SaveDomainIntact(st: Store, d: int, form: Slots)
    requires Intact(st)
    ensures Intact(SaveDomain(st, d, form).0)
  {
    var st' := SaveDomain(st, d, form).0;
    SameOffers(st, st');
    if AllOffered(st, form) {
      WithRowOffered(st, st.domains, d, form);
    }
  }

  // ----- any number of operations -----

  lemma ApplyIntact(st: Store, op: Op)
    requires Intact(st)
    ensures Intact(Apply(st, op).0)
  {
    match op
    case OpAddPolicy(name, kind) => AddPolicyIntact(st, name, kind);
    case OpClonePolicy(name, kind, data) => ClonePolicyIntact(st, name, kind, data);
    case OpEditPolicy(p, name, enabled) => EditPolicyIntact(st, p, name, enabled);
    case OpDeletePolicy(p) => DeletePolicyIntact(st, p);
    case OpAddRule(p, form) => AddRuleIntact(st, p, form);
    case OpEditRule(r, form) => EditRuleIntact(st, r, form);
    case OpDeleteRule(r) => DeleteRuleIntact(st, r);
    case OpMoveRule(r, up) => MoveRuleIntact(st, r, up);
    case OpSaveGlobal(s) => SaveGlobalIntact(st, s);
    case OpSaveDomain(d, s) => SaveDomainIntact(st, d, s);
  }

  /** Over any sequence of operations every nonzero slot names an existing, enabled policy of its
      kind, every enabled policy has a rule, and orderings within a policy stay distinct. */
  lemma {:induction false} RunIntact(st: Store, ops: seq<Op>)
    requires Intact(st)
    ensures Intact(Run(st, ops))
    decreases |ops|
  {
    if ops != [] {
      ApplyIntact(st, ops[0]);
      RunIntact(Apply(st, ops[0]).0, ops[1..]);
    }
  }

  /** The store the setup leaves: nothing but the global settings row, all zero. */
  const INITIAL := Store(map[], map[], Slots(0, 0, 0, 0), [], 1, 1)

  lemma InitialIntact()
    ensures Intact(INITIAL)
  {
  }
}
