/** What each policy operation does, read off the tables: which rows and slots change, to what, and that
    nothing else does. */
module PolicyEffects {
  import opened Wrappers
  import opened RuleFile
  import opened Policies
  import opened PolicyIntegrity

  // ----- slots -----

  /** The four slots, less the policy in the one of its kind. */
  predicate Deselected(s: Slots, s': Slots, kind: Kind, p: int) {
    && s'.archiveFilename == (if kind == ArchiveFilename && s.archiveFilename == p then 0 else s.archiveFilename)
    && s'.archiveFiletype == (if kind == ArchiveFiletype && s.archiveFiletype == p then 0 else s.archiveFiletype)
    && s'.filename == (if kind == Filename && s.filename == p then 0 else s.filename)
    && s'.filetype == (if kind == Filetype && s.filetype == p then 0 else s.filetype)
  }

  /** The policy is deselected globally and for every domain; the domains stay, in their order. */
  predicate DeselectedAll(st: Store, st': Store, kind: Kind, p: int) {
    && Deselected(st.settings, st'.settings, kind, p)
    && |st'.domains| == |st.domains|
    && forall i :: 0 <= i < |st.domains| ==>
         && st'.domains[i].domain == st.domains[i].domain
         && Deselected(st.domains[i].slots, st'.domains[i].slots, kind, p)
  }

  lemma RetiredMeans(st: Store, kind: Kind, p: int)
    ensures var st' := Retired(st, kind, p);
            DeselectedAll(st, st', kind, p) && st'.policies == st.policies && st'.rules == st.rules
  {
    SlotsMean(st.settings, kind, p);
    forall i | 0 <= i < |st.domains| { SlotsMean(st.domains[i].slots, kind, p); }
  }

  lemma SlotsMean(s: Slots, kind: Kind, p: int)
    ensures Deselected(s, Cleared(s, kind, p), kind, p)
  {
  }

  // ----- policies -----

  /** The other policies are the same. */
  ghost predicate OnlyPolicy(st: Store, st': Store, p: int) {
    && (forall q :: q != p ==> (q in st'.policies <==> q in st.policies))
    && forall q :: q != p && q in st.policies ==> st'.policies[q] == st.policies[q]
  }

  ghost predicate OnlyRule(st: Store, st': Store, r: int) {
    && (forall q :: q != r ==> (q in st'.rules <==> q in st.rules))
    && forall q :: q != r && q in st.rules ==> st'.rules[q] == st.rules[q]
  }

  predicate SameSlots(st: Store, st': Store) { st'.settings == st.settings && st'.domains == st.domains }

  /** Another policy has the name. */
  predicate Taken(st: Store, name: string, p: int) {
    exists q :: q in st.policies && q != p && st.policies[q].name == name
  }

  lemma AddPolicyEffect(st: Store, name: string, kind: Kind)
    requires Intact(st)
    ensures var (st', o) := AddPolicy(st, name, kind);
            var p := st.nextPolicy;
            if exists q :: q in st.policies && st.policies[q].name == name then o == NameTaken && st' == st
            else
              && o == Changed && p !in st.policies && p in st'.policies
              && st'.policies[p].name == name && st'.policies[p].kind == kind && !st'.policies[p].enabled
              && OnlyPolicy(st, st', p) && st'.rules == st.rules && SameSlots(st, st')
  {
  }

  /** A submit with another name or state takes effect, once the policy has an enabled rule and the name is
      free: name and state are those submitted, the kind stays, and disabling deselects. */
  lemma EditPolicyEffect(st: Store, p: int, name: string, enabled: bool)
    requires p in st.policies && (st.policies[p].name != name || st.policies[p].enabled != enabled)
    requires exists r :: r in st.rules && st.rules[r].policy == p && st.rules[r].form.enabled
    requires !Taken(st, name, p)
    ensures var (st', o) := EditPolicy(st, p, name, enabled);
            && o == Changed && p in st'.policies
            && st'.policies[p].name == name && st'.policies[p].enabled == enabled
            && st'.policies[p].kind == st.policies[p].kind
            && OnlyPolicy(st, st', p) && st'.rules == st.rules
            && if enabled then SameSlots(st, st') else DeselectedAll(st, st', st.policies[p].kind, p)
  {
    assert HasEnabledRule(st, p) && NameFree(st, name, {p});
    var st1 := st.(policies := st.policies[p := st.policies[p].(name := name, enabled := enabled)]);
    RetiredMeans(st1, st.policies[p].kind, p);
    assert EditPolicy(st, p, name, enabled) == (if enabled then st1 else Retired(st1, st.policies[p].kind, p), Changed);
  }

  /** In all other cases it changes nothing, and says why. */
  lemma EditPolicyRefused(st: Store, p: int, name: string, enabled: bool)
    ensures p !in st.policies ==> EditPolicy(st, p, name, enabled) == (st, NotFound)
    ensures p in st.policies && !HasEnabledRule(st, p) ==>
              EditPolicy(st, p, name, enabled) ==
                (st, if st.policies[p].name == name then Unchanged else AttributeError)
    ensures p in st.policies && HasEnabledRule(st, p) && st.policies[p].name == name
            && st.policies[p].enabled == enabled ==>
              EditPolicy(st, p, name, enabled) == (st, Unchanged)
    ensures p in st.policies && HasEnabledRule(st, p) && Taken(st, name, p)
            && (st.policies[p].name != name || st.policies[p].enabled != enabled) ==>
              EditPolicy(st, p, name, enabled) == (st, NameTaken)
  {
    assert Taken(st, name, p) ==> !NameFree(st, name, {p});
  }

  lemma DeletePolicyEffect(st: Store, p: int)
    requires p in st.policies
    ensures var (st', o) := DeletePolicy(st, p);
            && o == Changed && p !in st'.policies && OnlyPolicy(st, st', p)
            && (forall r :: r in st'.rules <==> r in st.rules && st.rules[r].policy != p)
            && (forall r :: r in st'.rules ==> st'.rules[r] == st.rules[r])
            && DeselectedAll(st, st', st.policies[p].kind, p)
  {
    RetiredMeans(st, st.policies[p].kind, p);
  }

  // ----- rules -----

  /** The new rule's ordering is above all in the policy, by one, or 0. */
  lemma AddRuleEffect(st: Store, p: int, form: RuleForm)
    requires Intact(st) && p in st.policies
    ensures var (st', o) := AddRule(st, p, form);
            var r := st.nextRule;
            && o == Changed && r !in st.rules && r in st'.rules
            && st'.rules[r].policy == p && st'.rules[r].form == form
            && (forall q :: q in st.rules && st.rules[q].policy == p ==> st.rules[q].ordering < st'.rules[r].ordering)
            && (if exists q :: q in st.rules && st.rules[q].policy == p
                then exists q :: q in st.rules && st.rules[q].policy == p
                                 && st.rules[q].ordering + 1 == st'.rules[r].ordering
                else st'.rules[r].ordering == 0)
            && OnlyRule(st, st', r) && st'.policies == st.policies && SameSlots(st, st')
  {
    assert IsMax(st, p, NextOrdering(st, p) - 1) || RulesOf(st, p) == {};
    assert forall q :: q in st.rules && st.rules[q].policy == p ==> q in RulesOf(st, p);
    assert (forall q :: q !in RulesOf(st, p)) ==> RulesOf(st, p) == {};
  }

  /** The policy is disabled and deselected, its name and kind staying. */
  ghost predicate OutOfUse(st: Store, st': Store, p: int)
    requires p in st.policies
  {
    && p in st'.policies && !st'.policies[p].enabled
    && st'.policies[p].name == st.policies[p].name && st'.policies[p].kind == st.policies[p].kind
    && OnlyPolicy(st, st', p) && DeselectedAll(st, st', st.policies[p].kind, p)
  }

  lemma DisabledMeans(st: Store, p: int)
    requires p in st.policies
    ensures OutOfUse(st, Disabled(st, p), p) && Disabled(st, p).rules == st.rules
  {
    var st1 := st.(policies := st.policies[p := st.policies[p].(enabled := false)]);
    RetiredMeans(st1, st.policies[p].kind, p);
  }

  /** The policy has this rule only. */
  predicate OnlyOne(st: Store, r: int)
    requires r in st.rules
  {
    forall q :: q in st.rules && st.rules[q].policy == st.rules[r].policy ==> q == r
  }

  lemma CountsOne(st: Store, r: int)
    requires r in st.rules
    ensures |RulesOf(st, st.rules[r].policy)| == 1 <==> OnlyOne(st, r)
  {
    var own := RulesOf(st, st.rules[r].policy);
    var others := own - {r};
    assert r in own && own == others + {r};
    if OnlyOne(st, r) {
      assert forall q :: q !in others;
    } else {
      var q :| q in st.rules && st.rules[q].policy == st.rules[r].policy && q != r;
      assert q in others;
    }
  }

  /** The rule holds the form submitted, in its place; disabling the only one takes the policy out of use. */
  lemma EditRuleEffect(st: Store, r: int, form: RuleForm)
    requires r in st.rules && st.rules[r].policy in st.policies && st.rules[r].form != form
    ensures var (st', o) := EditRule(st, r, form);
            && o == Changed && r in st'.rules && st'.rules[r].form == form
            && st'.rules[r].policy == st.rules[r].policy && st'.rules[r].ordering == st.rules[r].ordering
            && OnlyRule(st, st', r)
            && if !form.enabled && OnlyOne(st, r) then OutOfUse(st, st', st.rules[r].policy)
               else st'.policies == st.policies && SameSlots(st, st')
  {
    CountsOne(st, r);
    DisabledMeans(st, st.rules[r].policy);
  }

  lemma DeleteRuleEffect(st: Store, r: int)
    requires r in st.rules && st.rules[r].policy in st.policies
    ensures var (st', o) := DeleteRule(st, r);
            && o == Changed && r !in st'.rules && OnlyRule(st, st', r)
            && if OnlyOne(st, r) then OutOfUse(st, st', st.rules[r].policy)
               else st'.policies == st.policies && SameSlots(st, st')
  {
    CountsOne(st, r);
    DisabledMeans(st, st.rules[r].policy);
  }

  /** Another rule of the policy, with a higher ordering or a lower one. */
  predicate Beyond(st: Store, r: int, q: int, up: bool)
    requires r in st.rules
  {
    && q in st.rules && st.rules[q].policy == st.rules[r].policy
    && if up then st.rules[q].ordering > st.rules[r].ordering else st.rules[q].ordering < st.rules[r].ordering
  }

  /** The next rule there, all others being beyond it. */
  ghost predicate Adjacent(st: Store, r: int, q: int, up: bool)
    requires r in st.rules
  {
    Beyond(st, r, q, up) && forall x :: Beyond(st, r, x, up) && x != q ==> Beyond(st, q, x, up)
  }

  lemma NeighbourAdjacent(st: Store, r: int, q: int, up: bool)
    requires r in st.rules
    ensures Neighbour(st, r, up, q) <==> Adjacent(st, r, q, up)
  {
    var own := RulesOf(st, st.rules[r].policy);
    assert forall x :: x in own && Before(st, r, x, up) <==> Beyond(st, r, x, up);
    assert q in own ==> forall x :: x in own && Before(st, q, x, up) <==> Beyond(st, q, x, up);
  }

  /** The two have changed places, and nothing else has. */
  predicate ChangedPlaces(st: Store, st': Store, r: int, q: int) {
    && r in st.rules && q in st.rules && st'.rules.Keys == st.rules.Keys
    && st'.rules[r] == st.rules[r].(ordering := st.rules[q].ordering)
    && st'.rules[q] == st.rules[q].(ordering := st.rules[r].ordering)
    && forall x :: x in st.rules && x != r && x != q ==> st'.rules[x] == st.rules[x]
  }

  /** Up is towards the higher ordering: the rule and the next one there change places. */
  lemma MoveRuleEffect(st: Store, r: int, up: bool)
    requires OrderingsDistinct(st) && r in st.rules && st.rules[r].policy in st.policies
    ensures var (st', o) := MoveRule(st, r, up);
            if forall q :: q in st.rules ==> !Beyond(st, r, q, up) then o == Unchanged && st' == st
            else
              && o == Changed && st'.policies == st.policies && SameSlots(st, st')
              && exists q :: Adjacent(st, r, q, up) && ChangedPlaces(st, st', r, q)
  {
    forall q { NeighbourAdjacent(st, r, q, up); }
    if x :| Beyond(st, r, x, up) {
      var own := set q | q in st.rules && Beyond(st, r, q, up);
      assert x in own;
      var q := Closest(st, r, own, up);
      assert Adjacent(st, r, q, up);
      MovesTo(st, r, up, q);
    }
  }

  lemma MovesTo(st: Store, r: int, up: bool, q: int)
    requires r in st.rules && st.rules[r].policy in st.policies && Neighbour(st, r, up, q)
    ensures var (st', o) := MoveRule(st, r, up);
            && o == Changed && st'.policies == st.policies && SameSlots(st, st')
            && exists x :: Neighbour(st, r, up, x) && ChangedPlaces(st, st', r, x)
  {
  }

  lemma {:induction false} Closest(st: Store, r: int, own: set<int>, up: bool) returns (q: int)
    requires OrderingsDistinct(st) && r in st.rules && own != {} && forall x :: x in own ==> Beyond(st, r, x, up)
    ensures q in own && q in st.rules && forall x :: x in own && x != q ==> Beyond(st, q, x, up)
  {
    assert (forall x :: x !in own) ==> own == {};
    q :| q in own;
    if own != {q} {
      var q' := Closest(st, r, own - {q}, up);
      assert q' in own && q' != q;
      if Beyond(st, q', q, up) { q := q'; }
      assert forall x :: x in own ==> x == q || x == q' || x in own - {q};
    }
  }

  // ----- a clone -----

  /** The rule is a line of the file from `i` on, at the line's index, in the policy. */
  predicate FromLine(rule: Rule, p: int, data: seq<FileRule>, i: nat) {
    rule.policy == p && i <= rule.ordering < |data| && Imported(data[rule.ordering]) == Some(rule.form)
  }

  /** The old rules stay, and every new one is a line of the file. */
  ghost predicate Grown(st: Store, st': Store, p: int, data: seq<FileRule>, i: nat) {
    && (forall r :: r in st.rules ==> r in st'.rules && st'.rules[r] == st.rules[r])
    && (forall r :: r in st'.rules && r !in st.rules ==> FromLine(st'.rules[r], p, data, i))
  }

  /** The line is there as a new rule. */
  ghost predicate Entered(st: Store, st': Store, j: int) {
    exists r :: r in st'.rules && r !in st.rules && st'.rules[r].ordering == j
  }

  lemma {:induction false} WithRulesEffect(st: Store, p: int, data: seq<FileRule>, i: nat)
    requires i <= |data| && forall r :: r in st.rules ==> r < st.nextRule
    ensures var st' := WithRules(st, p, data, i);
            && st'.policies == st.policies && SameSlots(st, st') && Grown(st, st', p, data, i)
            && (forall j :: i <= j < |data| && Imported(data[j]).Some? ==> Entered(st, st', j))
    decreases |data| - i
  {
    if i < |data| {
      match Imported(data[i]) {
        case None => WithRulesEffect(st, p, data, i + 1);
        case Some(form) =>
          var rule := Rule(p, i, form);
          var st1 := st.(rules := st.rules[st.nextRule := rule], nextRule := st.nextRule + 1);
          WithRulesEffect(st1, p, data, i + 1);
          GrowthStep(st, st1, WithRules(st1, p, data, i + 1), p, data, i, rule);
      }
    }
  }

  lemma GrowthStep(st: Store, st1: Store, st': Store, p: int, data: seq<FileRule>, i: nat, rule: Rule)
    requires i < |data| && st.nextRule !in st.rules && FromLine(rule, p, data, i) && rule.ordering == i
    requires st1.rules == st.rules[st.nextRule := rule] && Grown(st1, st', p, data, i + 1)
    ensures Grown(st, st', p, data, i) && Entered(st, st', i)
    ensures forall j :: Entered(st1, st', j) ==> Entered(st, st', j)
  {
    assert st.nextRule in st1.rules && st'.rules[st.nextRule] == rule;
    forall r | r in st.rules
      ensures r in st'.rules && st'.rules[r] == st.rules[r]
    {
      assert r in st1.rules && st1.rules[r] == st.rules[r];
    }
  }

  lemma SameGrowth(st: Store, st1: Store, st': Store, p: int, data: seq<FileRule>)
    requires st1.rules == st.rules
    ensures Grown(st, st', p, data, 0) <==> Grown(st1, st', p, data, 0)
    ensures forall j :: Entered(st, st', j) <==> Entered(st1, st', j)
  {
  }

  /** A clone is a new policy, disabled, with a rule for each line of the file that is imported. */
  lemma ClonePolicyEffect(st: Store, name: string, kind: Kind, data: seq<FileRule>)
    requires Intact(st)
    ensures var (st', o) := ClonePolicy(st, name, kind, data);
            var p := st.nextPolicy;
            if exists q :: q in st.policies && st.policies[q].name == name then o == NameTaken && st' == st
            else
              && o == Changed && p !in st.policies && p in st'.policies
              && st'.policies[p].name == name && st'.policies[p].kind == kind && !st'.policies[p].enabled
              && OnlyPolicy(st, st', p) && SameSlots(st, st') && Grown(st, st', p, data, 0)
              && (forall j :: 0 <= j < |data| && Imported(data[j]).Some? ==> Entered(st, st', j))
  {
    AddPolicyEffect(st, name, kind);
    var st1 := AddPolicy(st, name, kind).0;
    WithRulesEffect(st1, st.nextPolicy, data, 0);
    SameGrowth(st, st1, WithRules(st1, st.nextPolicy, data, 0), st.nextPolicy, data);
  }

  // ----- slot forms -----

  /** Each field of the form is 0 or an enabled policy of the field's kind. */
  predicate Offers(st: Store, form: Slots) {
    && (form.archiveFilename == 0 || Selectable(st, form.archiveFilename, ArchiveFilename))
    && (form.archiveFiletype == 0 || Selectable(st, form.archiveFiletype, ArchiveFiletype))
    && (form.filename == 0 || Selectable(st, form.filename, Filename))
    && (form.filetype == 0 || Selectable(st, form.filetype, Filetype))
  }

  predicate Selectable(st: Store, p: int, kind: Kind) {
    p in st.policies && st.policies[p].kind == kind && st.policies[p].enabled
  }

  lemma OffersAll(st: Store, form: Slots)
    ensures AllOffered(st, form) <==> Offers(st, form)
  {
    assert AllOffered(st, form) ==>
        Offered(st, ArchiveFilename, form.Get(ArchiveFilename))
        && Offered(st, ArchiveFiletype, form.Get(ArchiveFiletype))
        && Offered(st, Filename, form.Get(Filename)) && Offered(st, Filetype, form.Get(Filetype));
  }

  lemma SaveGlobalEffect(st: Store, form: Slots)
    ensures var (st', o) := SaveGlobal(st, form);
            if !Offers(st, form) then o == InvalidChoice && st' == st
            else
              && o == Changed && st'.settings == form
              && st'.policies == st.policies && st'.rules == st.rules && st'.domains == st.domains
  {
    OffersAll(st, form);
  }

  /** The domain's row holds the form; the other rows stay, in their order, a new one going to the end. */
  lemma SaveDomainEffect(st: Store, d: int, form: Slots)
    requires Intact(st)
    ensures var (st', o) := SaveDomain(st, d, form);
            if !Offers(st, form) then o == InvalidChoice && st' == st
            else
              && o == Changed && st'.settings == st.settings && st'.policies == st.policies && st'.rules == st.rules
              && |st'.domains| == |st.domains| + (if exists i :: 0 <= i < |st.domains| && st.domains[i].domain == d
                                                  then 0 else 1)
              && (forall i :: 0 <= i < |st.domains| ==>
                    st'.domains[i] == DomainRow(st.domains[i].domain,
                                                if st.domains[i].domain == d then form else st.domains[i].slots))
              && (|st'.domains| > |st.domains| ==> st'.domains[|st.domains|] == DomainRow(d, form))
  {
    OffersAll(st, form);
    WithRowMeans(st.domains, d, form);
  }

  lemma {:induction false} WithRowMeans(rows: seq<DomainRow>, d: int, form: Slots)
    requires forall i, j :: 0 <= i < j < |rows| ==> rows[i].domain != rows[j].domain
    ensures var rows' := WithRow(rows, d, form);
            && |rows'| == |rows| + (if exists i :: 0 <= i < |rows| && rows[i].domain == d then 0 else 1)
            && (forall i :: 0 <= i < |rows| ==>
                  rows'[i] == DomainRow(rows[i].domain, if rows[i].domain == d then form else rows[i].slots))
            && (|rows'| > |rows| ==> rows'[|rows|] == DomainRow(d, form))
  {
    if rows != [] && rows[0].domain != d {
      WithRowMeans(rows[1..], d, form);
      assert forall i :: 0 < i < |rows| ==> rows[i] == rows[1..][i - 1];
    }
  }
}
