/** Content policies: their rules, and the global and per-domain slots that select them. */
module Policies {
  import opened Wrappers
  import opened RuleFile

  /** Policy types 1 to 4. */
  datatype Kind = ArchiveFilename | ArchiveFiletype | Filename | Filetype

  /** The policy selected for each kind; 0 is the system default. */
  datatype Slots = Slots(archiveFilename: int, archiveFiletype: int, filename: int, filetype: int) {
    function Get(k: Kind): int {
      match k
      case ArchiveFilename => archiveFilename
      case ArchiveFiletype => archiveFiletype
      case Filename => filename
      case Filetype => filetype
    }

    function Set(k: Kind, v: int): (s: Slots)
      ensures s.Get(k) == v && forall j :: j != k ==> s.Get(j) == Get(j)
    {
      match k
      case ArchiveFilename => this.(archiveFilename := v)
      case ArchiveFiletype => this.(archiveFiletype := v)
      case Filename => this.(filename := v)
      case Filetype => this.(filetype := v)
    }
  }

  datatype Policy = Policy(name: string, kind: Kind, enabled: bool)

  datatype Rule = Rule(policy: int, ordering: int, form: RuleForm)

  datatype DomainRow = DomainRow(domain: int, slots: Slots)

  datatype Store = Store(policies: map<int, Policy>, rules: map<int, Rule>, settings: Slots,
                         domains: seq<DomainRow>, nextPolicy: int, nextRule: int)

  datatype Outcome = Changed | Unchanged | NotFound | NameTaken | InvalidChoice | AttributeError

  // ----- lookups -----

  function RulesOf(st: Store, p: int): set<int> { set r | r in st.rules && st.rules[r].policy == p }

  predicate HasEnabledRule(st: Store, p: int) {
    exists r :: r in st.rules && st.rules[r].policy == p && st.rules[r].form.enabled
  }

  predicate NameFree(st: Store, name: string, except: set<int>) {
    forall p :: p in st.policies && p !in except ==> st.policies[p].name != name
  }

  /** The choices a settings form offers for a kind. */
  predicate Offered(st: Store, k: Kind, v: int) {
    v == 0 || (v in st.policies && st.policies[v].kind == k && st.policies[v].enabled)
  }

  predicate AllOffered(st: Store, s: Slots) { forall k :: Offered(st, k, s.Get(k)) }

  // ----- the operations -----

  function Cleared(s: Slots, k: Kind, p: int): Slots { if s.Get(k) == p then s.Set(k, 0) else s }

  function ClearedRows(rows: seq<DomainRow>, k: Kind, p: int): seq<DomainRow> {
    seq(|rows|, i requires 0 <= i < |rows| => rows[i].(slots := Cleared(rows[i].slots, k, p)))
  }

  /** No slot of a kind selects the policy any more. */
  function Retired(st: Store, k: Kind, p: int): Store {
    st.(settings := Cleared(st.settings, k, p), domains := ClearedRows(st.domains, k, p))
  }

  function AddPolicy(st: Store, name: string, kind: Kind): (Store, Outcome) {
    if NameFree(st, name, {}) then
      (st.(policies := st.policies[st.nextPolicy := Policy(name, kind, false)],
           nextPolicy := st.nextPolicy + 1), Changed)
    else (st, NameTaken)
  }

  /** The file's rules from index `i` on; a rule's ordering is its index in the file. */
  function WithRules(st: Store, p: int, data: seq<FileRule>, i: nat): Store
    requires i <= |data|
    decreases |data| - i
  {
    if i == |data| then st
    else
      match Imported(data[i])
      case None => WithRules(st, p, data, i + 1)
      case Some(form) =>
        WithRules(st.(rules := st.rules[st.nextRule := Rule(p, i, form)], nextRule := st.nextRule + 1), p, data, i + 1)
  }

  function ClonePolicy(st: Store, name: string, kind: Kind, data: seq<FileRule>): (Store, Outcome) {
    var (st1, o) := AddPolicy(st, name, kind);
    if o == Changed then (WithRules(st1, st.nextPolicy, data, 0), Changed) else (st, o)
  }

  /** The enabled field is only there for a policy with an enabled rule; without it a new name
      makes the update read a field that does not exist. */
  function EditPolicy(st: Store, p: int, name: string, enabled: bool): (Store, Outcome) {
    if p !in st.policies then (st, NotFound)
    else
      var pol := st.policies[p];
      if !HasEnabledRule(st, p) then (st, if pol.name != name then AttributeError else Unchanged)
      else if pol.name == name && pol.enabled == enabled then (st, Unchanged)
      else if !NameFree(st, name, {p}) then (st, NameTaken)
      else
        var st1 := st.(policies := st.policies[p := pol.(name := name, enabled := enabled)]);
        (if enabled then st1 else Retired(st1, pol.kind, p), Changed)
  }

  function DeletePolicy(st: Store, p: int): (Store, Outcome) {
    if p !in st.policies then (st, NotFound)
    else
      var st1 := Retired(st, st.policies[p].kind, p);
      (st1.(policies := st1.policies - {p}, rules := st1.rules - RulesOf(st, p)), Changed)
  }

  ghost predicate IsMax(st: Store, p: int, m: int) {
    && (exists r :: r in RulesOf(st, p) && st.rules[r].ordering == m)
    && (forall r :: r in RulesOf(st, p) ==> st.rules[r].ordering <= m)
  }

  lemma {:induction false} MaxExists(rules: map<int, Rule>, rs: set<int>) returns (m: int)
    requires rs != {}
    requires rs <= rules.Keys
    ensures exists r :: r in rs && rules[r].ordering == m
    ensures forall r :: r in rs ==> rules[r].ordering <= m
  {
    assert (forall q :: q !in rs) ==> rs == {};
    var q :| q in rs;
    m := rules[q].ordering;
    if rs != {q} {
      var m' := MaxExists(rules, rs - {q});
      if m' > m { m := m'; }
      assert forall r :: r in rs ==> r == q || r in rs - {q};
    }
  }

  /** One more than the highest ordering in the policy, or 0. */
  ghost function NextOrdering(st: Store, p: int): (n: int)
    ensures forall r :: r in RulesOf(st, p) ==> st.rules[r].ordering < n
    ensures RulesOf(st, p) == {} ==> n == 0
    ensures RulesOf(st, p) != {} ==> IsMax(st, p, n - 1)
  {
    if RulesOf(st, p) == {} then 0
    else
      assert exists m :: IsMax(st, p, m) by { var m := MaxExists(st.rules, RulesOf(st, p)); assert IsMax(st, p, m); }
      var m :| IsMax(st, p, m);
      m + 1
  }

  ghost function AddRule(st: Store, p: int, form: RuleForm): (Store, Outcome) {
    if p !in st.policies then (st, NotFound)
    else
      (st.(rules := st.rules[st.nextRule := Rule(p, NextOrdering(st, p), form)], nextRule := st.nextRule + 1), Changed)
  }

  /** A policy losing its last rule, or having its only rule disabled, is disabled and deselected. */
  function Disabled(st: Store, p: int): Store
    requires p in st.policies
  {
    Retired(st.(policies := st.policies[p := st.policies[p].(enabled := false)]), st.policies[p].kind, p)
  }

  predicate RuleInPolicy(st: Store, r: int) { r in st.rules && st.rules[r].policy in st.policies }

  function EditRule(st: Store, r: int, form: RuleForm): (Store, Outcome) {
    if !RuleInPolicy(st, r) then (st, NotFound)
    else if st.rules[r].form == form then (st, Unchanged)
    else
      var p := st.rules[r].policy;
      var st1 := if !form.enabled && |RulesOf(st, p)| == 1 then Disabled(st, p) else st;
      (st1.(rules := st1.rules[r := st1.rules[r].(form := form)]), Changed)
  }

  function DeleteRule(st: Store, r: int): (Store, Outcome) {
    if !RuleInPolicy(st, r) then (st, NotFound)
    else
      var p := st.rules[r].policy;
      var st1 := if |RulesOf(st, p)| == 1 then Disabled(st, p) else st;
      (st1.(rules := st1.rules - {r}), Changed)
  }

  /** The next rule of the same policy above or below, by ordering. */
  ghost predicate Neighbour(st: Store, r: int, up: bool, q: int)
    requires r in st.rules
  {
    && q in RulesOf(st, st.rules[r].policy)
    && Before(st, r, q, up)
    && forall x :: x in RulesOf(st, st.rules[r].policy) && Before(st, r, x, up) ==> x == q || Before(st, q, x, up)
  }

  ghost predicate Before(st: Store, a: int, b: int, up: bool) {
    a in st.rules && b in st.rules
    && if up then st.rules[a].ordering < st.rules[b].ordering else st.rules[a].ordering > st.rules[b].ordering
  }

  function Swapped(st: Store, r: int, q: int): Store
    requires r in st.rules && q in st.rules
  {
    var a, b := st.rules[r], st.rules[q];
    st.(rules := st.rules[r := a.(ordering := b.ordering)][q := b.(ordering := a.ordering)])
  }

  /** The first rule moves no further up, nor the last one down. */
  ghost function MoveRule(st: Store, r: int, up: bool): (Store, Outcome) {
    if !RuleInPolicy(st, r) then (st, NotFound)
    else if q :| Neighbour(st, r, up, q) then (Swapped(st, r, q), Changed)
    else (st, Unchanged)
  }

  function SaveGlobal(st: Store, form: Slots): (Store, Outcome) {
    if AllOffered(st, form) then (st.(settings := form), Changed) else (st, InvalidChoice)
  }

  function WithRow(rows: seq<DomainRow>, d: int, form: Slots): seq<DomainRow> {
    if rows == [] then [DomainRow(d, form)]
    else if rows[0].domain == d then [DomainRow(d, form)] + rows[1..]
    else [rows[0]] + WithRow(rows[1..], d, form)
  }

  function SaveDomain(st: Store, d: int, form: Slots): (Store, Outcome) {
    if AllOffered(st, form) then (st.(domains := WithRow(st.domains, d, form)), Changed) else (st, InvalidChoice)
  }

  datatype Op =
    | OpAddPolicy(name: string, kind: Kind)
    | OpClonePolicy(name: string, kind: Kind, data: seq<FileRule>)
    | OpEditPolicy(policy: int, name: string, enabled: bool)
    | OpDeletePolicy(policy: int)
    | OpAddRule(policy: int, form: RuleForm)
    | OpEditRule(rule: int, form: RuleForm)
    | OpDeleteRule(rule: int)
    | OpMoveRule(rule: int, up: bool)
    | OpSaveGlobal(slots: Slots)
    | OpSaveDomain(domain: int, slots: Slots)

  ghost function Apply(st: Store, op: Op): (Store, Outcome) {
    match op
    case OpAddPolicy(name, kind) => AddPolicy(st, name, kind)
    case OpClonePolicy(name, kind, data) => ClonePolicy(st, name, kind, data)
    case OpEditPolicy(p, name, enabled) => EditPolicy(st, p, name, enabled)
    case OpDeletePolicy(p) => DeletePolicy(st, p)
    case OpAddRule(p, form) => AddRule(st, p, form)
    case OpEditRule(r, form) => EditRule(st, r, form)
    case OpDeleteRule(r) => DeleteRule(st, r)
    case OpMoveRule(r, up) => MoveRule(st, r, up)
    case OpSaveGlobal(s) => SaveGlobal(st, s)
    case OpSaveDomain(d, s) => SaveDomain(st, d, s)
  }

  ghost function Run(st: Store, ops: seq<Op>): Store
    decreases |ops|
  {
    if ops == [] then st else Run(Apply(st, ops[0]).0, ops[1..])
  }
}
