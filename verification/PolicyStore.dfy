/** The tables behind the policy pages, edited in place. */
module PolicyStore {
  import opened Wrappers
  import opened RuleFile
  import opened Policies
  import opened PolicyIntegrity

  class PolicyStore {
    var policies: map<int, Policy>
    var rules: map<int, Rule>
    var settings: Slots
    var domains: seq<DomainRow>
    var nextPolicy: int
    var nextRule: int

    ghost function State(): Store
      reads this
    {
      Store(policies, rules, settings, domains, nextPolicy, nextRule)
    }

    constructor ()
      ensures State() == INITIAL
    {
      policies := map[];
      rules := map[];
      settings := Slots(0, 0, 0, 0);
      domains := [];
      nextPolicy := 1;
      nextRule := 1;
    }

    method Clear(kind: Kind, p: int)
      modifies this
      ensures State() == Retired(old(State()), kind, p)
    {
      if settings.Get(kind) == p {
        settings := settings.Set(kind, 0);
      }
      DisableDomainPolicies(kind, p);
    }

    method DisableDomainPolicies(kind: Kind, p: int)
      modifies this
      ensures State() == old(State()).(domains := ClearedRows(old(domains), kind, p))
    {
      for i := 0 to |domains|
        invariant State() == old(State()).(domains := domains)
        invariant |domains| == |old(domains)|
        invariant forall k :: 0 <= k < |domains| ==>
                    domains[k] == if k < i then ClearedRows(old(domains), kind, p)[k] else old(domains)[k]
      {
        if domains[i].slots.Get(kind) == p {
          domains := domains[i := domains[i].(slots := domains[i].slots.Set(kind, 0))];
        }
      }
      assert domains == ClearedRows(old(domains), kind, p);
    }

    method AddPolicy(name: string, kind: Kind) returns (o: Outcome)
      modifies this
      ensures (State(), o) == Policies.AddPolicy(old(State()), name, kind)
    {
      if exists q :: q in policies && policies[q].name == name {
        return NameTaken;
      }
      policies := policies[nextPolicy := Policy(name, kind, false)];
      nextPolicy := nextPolicy + 1;
      return Changed;
    }

    method ClonePolicy(name: string, kind: Kind, data: seq<FileRule>) returns (o: Outcome)
      modifies this
      ensures (State(), o) == Policies.ClonePolicy(old(State()), name, kind, data)
    {
      var p := nextPolicy;
      o := AddPolicy(name, kind);
      if o == Changed {
        ghost var st1 := State();
        for i := 0 to |data|
          invariant WithRules(st1, p, data, 0) == WithRules(State(), p, data, i)
        {
          match Imported(data[i]) {
            case None =>
            case Some(form) =>
              rules := rules[nextRule := Rule(p, i, form)];
              nextRule := nextRule + 1;
          }
        }
      }
    }

    method EditPolicy(p: int, name: string, enabled: bool) returns (o: Outcome)
      modifies this
      ensures (State(), o) == Policies.EditPolicy(old(State()), p, name, enabled)
    {
      if p !in policies { return NotFound; }
      var pol := policies[p];
      var enabledField := exists r :: r in rules && rules[r].policy == p && rules[r].form.enabled;
      if pol.name != name || (enabledField && pol.enabled != enabled) {
        if !enabledField { return AttributeError; }
        if exists q :: q in policies && q != p && policies[q].name == name { return NameTaken; }
        policies := policies[p := pol.(name := name, enabled := enabled)];
        if !enabled {
          Clear(pol.kind, p);
        }
        return Changed;
      }
      return Unchanged;
    }

    method DeletePolicy(p: int) returns (o: Outcome)
      modifies this
      ensures (State(), o) == Policies.DeletePolicy(old(State()), p)
    {
      if p !in policies { return NotFound; }
      Clear(policies[p].kind, p);
      var own := set r | r in rules && rules[r].policy == p;
      policies := policies - {p};
      rules := rules - own;
      return Changed;
    }

    method AddRule(p: int, form: RuleForm) returns (o: Outcome)
      modifies this
      ensures (State(), o) == Policies.AddRule(old(State()), p, form)
    {
      if p !in policies { return NotFound; }
      var max := MaxOrdering(p);
      var order := match max case None => 0 case Some(m) => m + 1;
      rules := rules[nextRule := Rule(p, order, form)];
      nextRule := nextRule + 1;
      return Changed;
    }

    /** SQL's `max`, which is NULL over no rows. */
    method MaxOrdering(p: int) returns (max: Option<int>)
      ensures match max
              case None => NextOrdering(State(), p) == 0
              case Some(m) => NextOrdering(State(), p) == m + 1
    {
      max := None;
      var todo := set r | r in rules && rules[r].policy == p;
      ghost var all := todo;
      assert all == RulesOf(State(), p);
      while todo != {}
        invariant todo <= all
        invariant max.None? <==> todo == all
        invariant max.Some? ==> exists r :: r in all - todo && rules[r].ordering == max.value
        invariant max.Some? ==> forall r :: r in all - todo ==> rules[r].ordering <= max.value
        decreases todo
      {
        assert (forall x :: x !in todo) ==> todo == {};
        var r :| r in todo;
        ghost var done := all - todo;
        if max.None? || max.value < rules[r].ordering {
          max := Some(rules[r].ordering);
        }
        todo := todo - {r};
        assert all - todo == done + {r};
      }
      if max.Some? {
        assert all - todo == all;
        assert IsMax(State(), p, max.value);
        assert IsMax(State(), p, NextOrdering(State(), p) - 1);
      }
    }

    /** Takes the policy out of use when its last rule goes or is disabled. */
    method Disable(p: int)
      requires p in policies
      modifies this
      ensures State() == Disabled(old(State()), p)
    {
      policies := policies[p := policies[p].(enabled := false)];
      Clear(policies[p].kind, p);
    }

    method RuleCount(p: int) returns (n: nat)
      ensures n == |RulesOf(State(), p)|
    {
      var own := set r | r in rules && rules[r].policy == p;
      assert own == RulesOf(State(), p);
      return |own|;
    }

    method EditRule(r: int, form: RuleForm) returns (o: Outcome)
      modifies this
      ensures (State(), o) == Policies.EditRule(old(State()), r, form)
    {
      if r !in rules || rules[r].policy !in policies { return NotFound; }
      if rules[r].form == form { return Unchanged; }
      var n := RuleCount(rules[r].policy);
      if !form.enabled && n == 1 {
        Disable(rules[r].policy);
      }
      rules := rules[r := rules[r].(form := form)];
      return Changed;
    }

    method DeleteRule(r: int) returns (o: Outcome)
      modifies this
      ensures (State(), o) == Policies.DeleteRule(old(State()), r)
    {
      if r !in rules || rules[r].policy !in policies { return NotFound; }
      var n := RuleCount(rules[r].policy);
      if n == 1 {
        Disable(rules[r].policy);
      }
      rules := rules - {r};
      return Changed;
    }

    /** The closest rule on the wanted side, if there is one. */
    method FindNeighbour(r: int, up: bool) returns (q: Option<int>)
      requires r in rules && OrderingsDistinct(State())
      ensures q.Some? ==> Neighbour(State(), r, up, q.value)
      ensures q.None? ==> forall x :: !Neighbour(State(), r, up, x)
    {
      q := None;
      var p, here := rules[r].policy, rules[r].ordering;
      var todo := set x | x in rules && rules[x].policy == p;
      ghost var all := todo;
      assert all == RulesOf(State(), p);
      while todo != {}
        invariant todo <= all
        invariant q.Some? ==> q.value in all && Before(State(), r, q.value, up)
        invariant forall x :: x in all - todo && Before(State(), r, x, up) ==>
                    q.Some? && (x == q.value || Before(State(), q.value, x, up)
                                || rules[x].ordering == rules[q.value].ordering)
        decreases todo
      {
        assert (forall y :: y !in todo) ==> todo == {};
        var x :| x in todo;
        todo := todo - {x};
        var beyond := if up then rules[x].ordering > here else rules[x].ordering < here;
        if beyond {
          if || q.None?
             || (if up then rules[x].ordering < rules[q.value].ordering
                 else rules[x].ordering > rules[q.value].ordering) {
            q := Some(x);
          }
        }
      }
    }

    method MoveRule(r: int, up: bool) returns (o: Outcome)
      requires OrderingsDistinct(State())
      modifies this
      ensures (State(), o) == Policies.MoveRule(old(State()), r, up)
    {
      if r !in rules || rules[r].policy !in policies { return NotFound; }
      var q := FindNeighbour(r, up);
      match q
      case None => return Unchanged;
      case Some(x) =>
        var previous := rules[r].ordering;
        var other := rules[x].ordering;
        rules := rules[r := rules[r].(ordering := other)];
        rules := rules[x := rules[x].(ordering := previous)];
        o := Changed;
    }

    predicate Choosable(k: Kind, v: int)
      reads this
    {
      v == 0 || (v in policies && policies[v].kind == k && policies[v].enabled)
    }

    /** Every submitted choice has to be one the form offers. */
    method Validate(form: Slots) returns (ok: bool)
      ensures ok <==> AllOffered(State(), form)
    {
      var kinds := [ArchiveFilename, ArchiveFiletype, Filename, Filetype];
      ok := true;
      for i := 0 to |kinds|
        invariant ok <==> forall j :: 0 <= j < i ==> Offered(State(), kinds[j], form.Get(kinds[j]))
      {
        ok := ok && Choosable(kinds[i], form.Get(kinds[i]));
      }
      assert kinds[0] == ArchiveFilename && kinds[1] == ArchiveFiletype && kinds[2] == Filename && kinds[3] == Filetype;
      if ok {
        forall k
          ensures Offered(State(), k, form.Get(k))
        {
          assert k == kinds[0] || k == kinds[1] || k == kinds[2] || k == kinds[3];
        }
      }
    }

    method SaveGlobal(form: Slots) returns (o: Outcome)
      modifies this
      ensures (State(), o) == Policies.SaveGlobal(old(State()), form)
    {
      var ok := Validate(form);
      if !ok { return InvalidChoice; }
      settings := form;
      return Changed;
    }

    method SaveDomain(d: int, form: Slots) returns (o: Outcome)
      modifies this
      ensures (State(), o) == Policies.SaveDomain(old(State()), d, form)
    {
      var ok := Validate(form);
      if !ok { return InvalidChoice; }
      var i := 0;
      while i < |domains| && domains[i].domain != d
        invariant 0 <= i <= |domains|
        invariant forall k :: 0 <= k < i ==> domains[k].domain != d
      {
        i := i + 1;
      }
      WithRowAt(domains, d, form, i);
      if i < |domains| {
        domains := domains[i := DomainRow(d, form)];
      } else {
        domains := domains + [DomainRow(d, form)];
      }
      return Changed;
    }
  }

  lemma {:induction false} WithRowAt(rows: seq<DomainRow>, d: int, form: Slots, i: nat)
    requires i <= |rows| && forall k :: 0 <= k < i ==> rows[k].domain != d
    requires i < |rows| ==> rows[i].domain == d
    ensures WithRow(rows, d, form) == if i < |rows| then rows[i := DomainRow(d, form)] else rows + [DomainRow(d, form)]
  {
    if i > 0 {
      WithRowAt(rows[1..], d, form, i - 1);
      assert rows == [rows[0]] + rows[1..];
    }
  }
}
