/** Rules as a MailScanner ruleset file lists them: imported into a policy, or shown as the default. */
module RuleFile {
  import opened Wrappers

  datatype FileRule = FileRule(action: string, expression: string, logtext: string)

  /** What a rule form submits, and a rule stores besides its policy and place. */
  datatype RuleForm = RuleForm(expression: string, description: string, action: string, options: Option<string>,
                               enabled: bool)

  const RENAME := "rename to "

  predicate IsRename(action: string) { RENAME <= action }

  function FirstLine(s: string): string {
    if s == "" || s[0] == '\n' then "" else [s[0]] + FirstLine(s[1..])
  }

  /** The pattern `rename to (.+)`: the name runs to the end of the line and is not empty. */
  function RenameOption(action: string): Option<string>
    requires IsRename(action)
  {
    var name := FirstLine(action[|RENAME|..]);
    if name == "" then None else Some(name)
  }

  /** A rename without a name. */
  predicate Bare(r: FileRule) { IsRename(r.action) && RenameOption(r.action).None? }

  /** The rule a clone stores; a bare rename is passed over. */
  function Imported(r: FileRule): (f: Option<RuleForm>)
    ensures f.None? <==> Bare(r)
    ensures f.Some? ==> f.value.enabled && Shown(f.value) == DefaultEntry(r)
  {
    if IsRename(r.action) then
      match RenameOption(r.action)
      case None => None
      case Some(name) => Some(RuleForm(r.expression, r.logtext, "renameto", Some(name), true))
    else if '@' in r.action then
      Some(RuleForm(r.expression, r.logtext, "email-addresses", Some(r.action), true))
    else
      Some(RuleForm(r.expression, r.logtext, r.action, None, true))
  }

  /** A line of the default policy as it is displayed. */
  datatype Entry = Entry(action: string, expression: string, description: string, options: string)

  function DefaultEntry(r: FileRule): Entry {
    if IsRename(r.action) then
      Entry("renameto", r.expression, r.logtext, match RenameOption(r.action) case None => "" case Some(name) => name)
    else if '@' in r.action then Entry("email-addresses", r.expression, r.logtext, r.action)
    else Entry(r.action, r.expression, r.logtext, "")
  }

  /** The default as displayed: its lines from last to first. */
  function Displayed(rules: seq<FileRule>): (entries: seq<Entry>)
    ensures |entries| == |rules|
    ensures forall i :: 0 <= i < |rules| ==> entries[i] == DefaultEntry(rules[|rules| - 1 - i])
  {
    if rules == [] then [] else Displayed(rules[1..]) + [DefaultEntry(rules[0])]
  }

  /** Reverses the file's rules, then rewrites them one by one. */
  method ProcessDefaultRules(rules: seq<FileRule>) returns (entries: seq<Entry>)
    ensures entries == Displayed(rules)
  {
    entries := [];
    if rules != [] {
      var drules := Reverse(rules);
      for i := 0 to |drules|
        invariant |entries| == i
        invariant forall j :: 0 <= j < i ==> entries[j] == DefaultEntry(drules[j])
      {
        entries := entries + [DefaultEntry(drules[i])];
      }
    }
  }

  /** The list method `reverse`. */
  method Reverse(rules: seq<FileRule>) returns (r: seq<FileRule>)
    ensures |r| == |rules| && forall i :: 0 <= i < |r| ==> r[i] == rules[|rules| - 1 - i]
  {
    r := [];
    for i := 0 to |rules|
      invariant |r| == i
      invariant forall k :: 0 <= k < i ==> r[k] == rules[i - 1 - k]
    {
      r := [rules[i]] + r;
    }
  }

  function Shown(f: RuleForm): Entry {
    Entry(f.action, f.expression, f.description, match f.options case None => "" case Some(o) => o)
  }

  lemma {:induction false} FirstLineEnds(name: string, tail: string)
    requires '\n' !in name && (tail == "" || tail[0] == '\n')
    ensures FirstLine(name + tail) == name
  {
    if name != "" {
      assert (name + tail)[1..] == name[1..] + tail;
      FirstLineEnds(name[1..], tail);
    } else {
      assert name + tail == tail;
    }
  }

  /** A rename's option is the name up to the end of the line; without a name nothing is imported. */
  lemma RenameRead(expression: string, logtext: string, name: string, tail: string)
    requires '\n' !in name && (tail == "" || tail[0] == '\n')
    ensures var r := FileRule("rename to " + name + tail, expression, logtext);
            && Imported(r) == (if name == "" then None
                               else Some(RuleForm(expression, logtext, "renameto", Some(name), true)))
            && DefaultEntry(r) == Entry("renameto", expression, logtext, name)
  {
    var action := "rename to " + name + tail;
    assert action == RENAME + (name + tail);
    assert action[|RENAME|..] == name + tail;
    FirstLineEnds(name, tail);
  }

  /** Of any other action, one with an `@` is a list of addresses, and the rest are taken as they are. */
  lemma OtherRead(r: FileRule)
    requires !("rename to " <= r.action)
    ensures var addresses := exists i :: 0 <= i < |r.action| && r.action[i] == '@';
            && Imported(r) == Some(if addresses
                                   then RuleForm(r.expression, r.logtext, "email-addresses", Some(r.action), true)
                                   else RuleForm(r.expression, r.logtext, r.action, None, true))
            && DefaultEntry(r) == Entry(if addresses then "email-addresses" else r.action, r.expression, r.logtext,
                                        if addresses then r.action else "")
  {
    assert '@' in r.action <==> exists i :: 0 <= i < |r.action| && r.action[i] == '@';
  }

  // ----- what a clone leaves out -----

  function NonBare(rules: seq<FileRule>): seq<FileRule> {
    if rules == [] then [] else (if Bare(rules[0]) then [] else [rules[0]]) + NonBare(rules[1..])
  }

  /** A displayed line that renames to nothing. */
  predicate BareEntry(e: Entry) { e.action == "renameto" && e.options == "" }

  function WithoutBare(entries: seq<Entry>): seq<Entry> {
    if entries == [] then []
    else
      WithoutBare(entries[..|entries| - 1])
      + if BareEntry(entries[|entries| - 1]) then [] else [entries[|entries| - 1]]
  }

  /** An action spelled like the internal one. */
  predicate Spelled(r: FileRule) { r.action == "renameto" }

  lemma BareShows(r: FileRule)
    ensures BareEntry(DefaultEntry(r)) <==> Bare(r) || Spelled(r)
  {
    assert "renameto"[6] == 't' && RENAME[6] == ' ';
    assert IsRename(r.action) ==> r.action[6] == RENAME[6];
    assert r.action == "renameto" ==> '@' !in r.action;
  }

  predicate NoneSpelled(rules: seq<FileRule>) { forall i :: 0 <= i < |rules| ==> !Spelled(rules[i]) }

  lemma NoneSpelledFirst(rules: seq<FileRule>)
    requires rules != []
    ensures NoneSpelled(rules) <==> !Spelled(rules[0]) && NoneSpelled(rules[1..])
  {
    assert forall i :: 0 < i < |rules| ==> rules[i] == rules[1..][i - 1];
  }

  lemma {:induction false} WithoutBareLength(rules: seq<FileRule>)
    ensures |WithoutBare(Displayed(rules))| <= |NonBare(rules)|
    ensures |WithoutBare(Displayed(rules))| == |NonBare(rules)| ==> NoneSpelled(rules)
    decreases |rules|
  {
    if rules != [] {
      WithoutBareLength(rules[1..]);
      DisplayedStep(rules);
      NoneSpelledFirst(rules);
      BareIsNotSpelled(rules[0]);
    }
  }

  lemma BareIsNotSpelled(r: FileRule)
    ensures !(Bare(r) && Spelled(r))
  {
    assert "renameto"[6] == 't' && RENAME[6] == ' ';
    assert IsRename(r.action) ==> r.action[6] == RENAME[6];
  }

  lemma DisplayedStep(rules: seq<FileRule>)
    requires rules != []
    ensures WithoutBare(Displayed(rules)) ==
              WithoutBare(Displayed(rules[1..]))
              + if Bare(rules[0]) || Spelled(rules[0]) then [] else [DefaultEntry(rules[0])]
  {
    BareShows(rules[0]);
    var entries := Displayed(rules);
    assert entries[..|entries| - 1] == Displayed(rules[1..]);
    assert entries[|entries| - 1] == DefaultEntry(rules[0]);
  }

  lemma DisplayedCons(r: FileRule, rest: seq<FileRule>)
    ensures Displayed([r] + rest) == Displayed(rest) + [DefaultEntry(r)]
  {
    assert ([r] + rest)[0] == r && ([r] + rest)[1..] == rest;
  }

  lemma {:induction false} DisplayedFiltered(rules: seq<FileRule>)
    requires NoneSpelled(rules)
    ensures Displayed(NonBare(rules)) == WithoutBare(Displayed(rules))
    decreases |rules|
  {
    if rules != [] {
      var r, rest := rules[0], rules[1..];
      NoneSpelledFirst(rules);
      DisplayedFiltered(rest);
      DisplayedStep(rules);
      if Bare(r) {
        NothingMore(WithoutBare(Displayed(rest)), NonBare(rest));
      } else {
        DisplayedCons(r, NonBare(rest));
      }
    }
  }

  lemma NothingMore(entries: seq<Entry>, rules: seq<FileRule>)
    ensures entries + [] == entries && [] + rules == rules
  {
  }

  /** The lines of a clone are the displayed lines less the bare renames exactly if no line's action is
      spelled like the internal name of a rename: such a line displays as a bare rename, but is cloned. */
  lemma {:induction false} FilteredExactly(rules: seq<FileRule>)
    ensures Displayed(NonBare(rules)) == WithoutBare(Displayed(rules)) <==> NoneSpelled(rules)
  {
    if NoneSpelled(rules) {
      DisplayedFiltered(rules);
    } else {
      WithoutBareLength(rules);
    }
  }

  /** Such a line is displayed like a bare rename, yet a clone keeps it. */
  lemma SpelledDiffers(expression: string, logtext: string)
    ensures var data := [FileRule("renameto", expression, logtext)];
            Displayed(NonBare(data)) != WithoutBare(Displayed(data))
  {
    var data := [FileRule("renameto", expression, logtext)];
    assert Spelled(data[0]);
    FilteredExactly(data);
  }
}
