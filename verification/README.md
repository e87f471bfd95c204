# Baruwa: queries, policies, queues, reports and retention

This project models the parts of Baruwa that carry state machines or transformations, and proves what they
guarantee. `dafny verify dfyconfig.toml` checks all of it.

Tables are maps or sequences of rows, the clock is an integer number of seconds, and memcached is one key with an
expiry time. A class stands for an object or a set of tables that the program changes in place; each of its methods
is proved equal to a specification function, and the lemmas are about those functions. What such a function computes
is in turn stated without it, over the rows, columns and literals that the program has: the lemmas whose names end in
`Means` or `Effect`, and others named below.

| module | what it models |
|---|---|
| `Wrappers`, `Text`, `Sql` | optional values, `str.replace`, and SQL criteria under three-valued logic, shared by the others |
| `SearchQuery` | escaping a full-text query for Sphinx and restoring it for display |
| `JsQuote` | `quote_js`, and the value of a string literal by section 7.8.4 of ECMA-262 5.1 |
| `DynaQuery` | compiling a list of user filters through three dictionaries into one query |
| `AccessFilter`, `TaggedAddress` | the access rule, and the hash prefilter in front of it; what a tagged address admits as a `LIKE` pattern |
| `MailQueue`, `MailQueueRuns`, `QueueRows` | reconciling the queue table with two spool snapshots; run after run; row by row and column by column |
| `RuleFile`, `Policies`, `PolicyEffects`, `PolicyIntegrity`, `PolicyRules`, `PolicyStore` | content policies: the operations, what each does, what each keeps, rule listings, and the tables edited in place |
| `CacheLock` | the expiring lock, for any number of workers |
| `Reports`, `ReportedTwice`, `ReportJob` | quarantine reports interleaved with pruning on one clock; the report command as a run of those steps |
| `DbClean`, `PruneSteps` | archiving and pruning, over transactions; the pruning job as steps of the machine in `Reports` |
| `OverrideStore` | the settings pages, which store only what differs from the defaults |
| `Pagination` | page windows and row ranges |
| `QuarantineDates` | quarantine directories by age, on the Gregorian calendar |

## Where the code does not do what it sets out to

Each of these is proved, not just observed.

- **A message can be reported twice**, in two ways. A report run that takes longer than the five minutes its lock
  lasts lets a second one in, which finds the same messages (`ReportedTwice.OverlongFails`). And release records are stamped
  with the start of the database transaction, which is earlier than the moment the report goes out
  (`ReportJob.LagExactly` says by how much, `ReportJob.LateStamp` shows a run), so that they are pruned too early.
  `ReportedTwice.AtMostOnceExactly` gives the exact condition on the duration, the windows, the lags and the retention
  times; in whole days (`ReportedTwice.InWholeDays`) a window of two days, which is how long release records are kept, is
  already too long.
- **Deleting flagged queue entries deletes no rows.** The removal of each message returns `None`, so the SQL list is
  `IN (NULL, ...)` (`MailQueue.QueueStats.DeleteFlagged`). The rows go when the next snapshot no longer has the
  message.
- **Queue rows of other hosts can be deleted or overwritten**, deletion and one of the updates being by message id
  alone. `MailQueueRuns.ForeignSurvives` and `MailQueueRuns.ForeignExactly` say exactly when;
  `MailQueueRuns.SharedIdDeletes` and `MailQueueRuns.SharedIdOverwrites` show it happen. For the same reason a second
  run on the same snapshots can change rows the first has left (`MailQueueRuns.IdempotentExactly`,
  `MailQueueRuns.SecondRunOverwrites`).
- **A message that gains a recipient while it is queued stops the run** (`MailQueueRuns.GainedRecipientFaults`;
  `MailQueueRuns.RunDoneExactly` says exactly when a run is not stopped).
- **An enabled policy can be left without an enabled rule**, the guards counting rules rather than enabled rules.
  `PolicyRules.LiveExactly` says under exactly which operations, and `PolicyRules.StrandingHappens` shows it happen;
  until it gets an enabled rule the policy can be neither disabled nor renamed from its form
  (`PolicyRules.StrandedIsStuck`), and an attempt to rename it raises `AttributeError`.
- **A clone need not list what the default's display shows**: a line whose action is spelled like the internal
  `renameto` displays as a bare rename (`RuleFile.FilteredExactly`, `RuleFile.SpelledDiffers`).
- **The prefilter loses a permitted row in one case**: a domain administrator all of whose domains are inactive, and
  a row of the sentinel domain `xx`, unless hashes collide (`AccessFilter.FilterSphinx` says exactly when,
  `AccessFilter.InactiveDomainLosesSentinel` for whom).
- **A tagged address with an underscore, a percent sign or a backslash admits addresses of others**, these being
  special in a pattern (`TaggedAddress.TaggingExactly`, `TaggedAddress.UnderscoreWidens`,
  `TaggedAddress.PercentWidens`, `TaggedAddress.BackslashShifts`).
- **A search query holding `\@` or `\-` need not come back from display as it was entered**
  (`SearchQuery.RoundTripExactly` gives the exact condition, `SearchQuery.HyphenIsLost` and `SearchQuery.AtIsLost` the
  smallest queries).
- **A settings list with `auto` chosen twice is stored although it is the default**
  (`OverrideStore.DefaultStoredExactly`, `OverrideStore.TwiceAutoStored`), and a list that is stored to the letter is
  left although the check would remove from it (`OverrideStore.ListTakesEffect`, `OverrideStore.ThriceThenTwice`).
- **A number of zero counts as blank** (`OverrideStore.SingleTakesEffect`), and a stored number is written again at
  every submit (`OverrideStore.NumberAlwaysUpdated`).
- **A message id in both tables stops archiving for good**: the repair is rolled back with the rest
  (`DbClean.ConflictIsForever`). The program's own runs never bring one there (`DbClean.NeverConflicts`); tables
  restored from dumps of different days would, or an id sequence that starts over.
- **One directory named by eight digits that are no date stops the cleaning of the quarantine**
  (`QuarantineDates.Select`, `QuarantineDates.NoDateStops`), although the docstring promises only true or false for
  each.

## Model

| member | source | states |
|---|---|---|
| SearchQuery.RoundTripExactly | baruwa/lib/query.py:609-620 | `restore_sphinx_q(clean_sphinx_q(q)) == q` if and only if each escape sequence that restoring removes was either added by cleaning or is absent from `q` |
| SearchQuery.PlainQueriesRoundTrip | baruwa/lib/query.py:609-620 | the round trip holds for every `q` with neither `\@` nor `\-`, whichever escapes apply |
| SearchQuery.HyphenIsLost | baruwa/lib/query.py:609-620 | a query of a backslash and a hyphen does not come back |
| SearchQuery.AtIsLost | baruwa/lib/query.py:609-620 | nor does an escaped `@` in a query limited to a field |
| SearchQuery.EximGuardOnRawQuery | baruwa/lib/query.py:613-615 | escaping `@` first never changes whether the query starts with an Exim message id |
| SearchQuery.EscapeCommutes | baruwa/lib/query.py:609-620 | the two ordered replacements do not disturb each other: escaping one character commutes with unescaping another |
| SearchQuery.UnescapeUndoesEscape | baruwa/lib/query.py:618-620 | undoing one escape gives back the text, whatever backslashes it holds |
| SearchQuery.CleanMeans | baruwa/lib/query.py:609-615 | cleaning is one pass that puts a backslash before every `@`, unless the query is limited to a field, and before every hyphen if it starts with an Exim message id, and changes nothing else |
| SearchQuery.RestoreMeans | baruwa/lib/query.py:618-620 | the two replacements are one pass that drops the backslash before an `@` or a hyphen |
| SearchQuery.FieldQueryMeans | baruwa/lib/regex.py:113 | a query is limited to a field if and only if it splits into blanks, an `@`, one line of text that is not empty, and at most a newline |
| SearchQuery.EximIdMeans | baruwa/lib/regex.py:107 | it starts with an Exim message id if and only if it splits into 6, 6 and 2 alphanumerics with hyphens between, and anything |
| JsQuote.QuoteJsRoundTrip | baruwa/lib/misc.py:219-237 | quoting succeeds exactly on BMP strings, writes ASCII, and the literal it writes in single quotes (baruwa/controllers/utils.py) has the original as its value, so it has no raw line break or unescaped quote |
| JsQuote.PassesEscapeEach | baruwa/lib/misc.py:230-237 | the whole-string replacements in sequence and the `\uXXXX` pass equal one escape for each character |
| JsQuote.DecodeEscapeEach | baruwa/lib/misc.py:230-237 | reading the escaped text by the literal grammar gives the text back, double quotes as `&quot;` when asked |
| JsQuote.HexRoundTrip | baruwa/lib/misc.py:222-224 | the four digits of `\u%04x` read back as the character's number |
| JsQuote.QuoteOne | baruwa/lib/misc.py:222-237 | what is written for each single character, by character codes |
| JsQuote.QuoteAppend | baruwa/lib/misc.py:230-237 | a text is quoted character by character |
| DynaQuery.KeyInjective | baruwa/lib/query.py:76-121 | the built key string determines field and operator, whatever underscores the field name has |
| DynaQuery.KeptByGroups | baruwa/lib/query.py:76-121 | grouping the filters by key string is grouping them by (field, operator) |
| DynaQuery.DynaQuery.LoadKeys | baruwa/lib/query.py:55-70 | through the once, twice and many transitions between the three dictionaries, exactly one expression is added under the key and no other key changes |
| DynaQuery.DynaQuery.LoadFilters | baruwa/lib/query.py:74-122 | feeding all filters leaves every key holding exactly its group, also when the dictionaries were already full; an unknown column raises |
| DynaQuery.DynaQuery.AddWaiting | baruwa/lib/query.py:123 | clauses added outright are those alone under their key |
| DynaQuery.DynaQuery.Assemble | baruwa/lib/query.py:124-139 | whichever of its four forms the criterion takes, it asks for all clauses collected |
| DynaQuery.DynaQuery.Generate | baruwa/lib/query.py:72-139 | the query keeps a row if and only if the query it started from does and for each (field, operator) pair some filter with that pair is true under three-valued logic; it can be called any number of times with the same meaning |
| DynaQuery.GenerateOne | baruwa/lib/query.py:72-139 | the query compiled from a single filter keeps, of the rows kept before, exactly those whose cell passes the test of the filter's code, for each of the twelve codes over what the database compares (`Asked`): equal, greater, less, containing, matching, their opposites, NULL, not NULL, above zero, not above zero; an unknown code asks for nothing |
| DynaQuery.KeptByOne | baruwa/lib/query.py:76-121 | the same of what one filter asks for |
| DynaQuery.KeptBySome | baruwa/lib/query.py:72-139 | several filters ask, for each, that some one with its field and code would keep the row alone |
| DynaQuery.InAnyOrder | baruwa/lib/query.py:45-139 | the queries that two objects generate from the same filters in another order, or one object twice in a row, keep the same rows |
| AccessFilter.DomainNames | baruwa/lib/query.py:222-227 | the names collected are exactly those of the live domains (or all, for the prefilter) and their live aliases |
| AccessFilter.VisibleMeans | baruwa/lib/query.py:161-244 | who sees a row in each direction, by the columns `to_address`, `from_address`, `to_domain` and `from_domain`: anyone the rows of the own addresses, tagged ones as patterns; a domain administrator those of live domains and live aliases, or of `xx` where there is no live domain; a super administrator all |
| AccessFilter.TaggedMeans | baruwa/lib/query.py:165-210 | an address is tagged if and only if `+*` or `-*` is somewhere in it |
| AccessFilter.TagPatternMeans | baruwa/lib/query.py:165-210 | its pattern has a percent sign for the star of every tag, and is the address otherwise |
| AccessFilter.UserFilter.BuildUserFilter | baruwa/lib/query.py:161-211 | in each direction the query is narrowed to exactly the rows with one of the user's addresses, plain or tagged |
| AccessFilter.UserFilter.Filter | baruwa/lib/query.py:217-244 | for every account type and direction the query is narrowed to exactly the rows the user may see |
| AccessFilter.DomainFilterMeaning | baruwa/lib/query.py:228-241 | the three domain criteria accept exactly the rows visible in each direction |
| AccessFilter.AddressFilterMeaning | baruwa/lib/query.py:161-211 | the address criteria, with and without tagged addresses, accept exactly the rows visible in each direction |
| AccessFilter.GetDomCrcs | baruwa/lib/query.py:575-586 | the hashes are exactly those of the domains and live aliases administered, inactive domains included |
| AccessFilter.GetTaggedAddrs | baruwa/lib/query.py:653-681 | the hashes are exactly those of addresses in the live messages table that are the user's |
| AccessFilter.FilterSphinx | baruwa/lib/query.py:589-606 | for any hash, and whatever the index holds for NULL: the prefilter of an administrator loses no permitted row if and only if not in the sentinel case (domains administered, all inactive, and none with the hash of the sentinel); that of an ordinary user loses no permitted row of the live table; so that prefilter and rule together equal the rule |
| AccessFilter.SentinelRowDropped | baruwa/lib/query.py:228-229 | in the sentinel case a row between two domains of that name is permitted and dropped |
| AccessFilter.InactiveDomainLosesSentinel | baruwa/lib/query.py:575-586 | an administrator of one inactive domain is in the sentinel case |
| TaggedAddress.TaggedAdmits | baruwa/lib/query.py:165-210 | whatever characters it holds, an address tagged `+*` or `-*` admits exactly the texts in three parts: what the pattern before the sign matches, the sign and anything, what the pattern after the tag matches |
| TaggedAddress.TaggingExactly | baruwa/lib/query.py:165-210 | it admits nothing but what differs in the tag if and only if all else in it stands for itself (no underscore, percent sign, backslash or further tag), or it ends inside an escape and admits nothing |
| TaggedAddress.UnderscoreWidens | baruwa/lib/query.py:165-210 | in any plain domain, the tagged `a_b` admits `axb` |
| TaggedAddress.PercentWidens | baruwa/lib/query.py:165-210 | the tagged `a%b` admits `axyb` |
| TaggedAddress.BackslashShifts | baruwa/lib/query.py:165-210 | the tagged `a\b` admits `ab` |
| MailQueue.QueueStats.DeleteFlagged | baruwa/commands/queuestats.py:91-108 | the flagged messages of the direction are asked to be removed; no row goes |
| MailQueue.QueueStats.RunItem | baruwa/commands/queuestats.py:35-78 | an item's commit has the stated effect on the table, or faults and commits nothing |
| MailQueue.QueueStats.UpdateAll | baruwa/commands/queuestats.py:38-45 | a known item with one recipient updates all rows of its message and nothing else |
| MailQueue.QueueStats.UpdateEach | baruwa/commands/queuestats.py:58-68 | a known item with several recipients updates exactly their rows, or the first lookup without exactly one row faults |
| MailQueue.QueueStats.InsertEach | baruwa/commands/queuestats.py:47-56 | a new item adds one row for each recipient in order, with the columns that `QueueRows.EveryRow` spells out, or an address without a domain faults |
| MailQueue.QueueStats.RunQuery | baruwa/commands/queuestats.py:33-78 | items are committed in order up to the first fault |
| MailQueue.QueueStats.UpdateQueueStats | baruwa/commands/queuestats.py:111-136 | a whole run is: drop the rows of this host's messages no longer queued, then enter both queues against the ids known before |
| MailQueue.ClosedForm | baruwa/commands/queuestats.py:33-78 | without faults, committing item by item equals retouching the old rows and appending the new ones |
| MailQueue.CommittedForm | baruwa/commands/queuestats.py:33-78 | whether or not a fault ends it, what is committed is the closed form of the items before the first fault, which are all that the table at first can take together, and no more |
| MailQueue.UpToFaultUnique | baruwa/commands/queuestats.py:33-78 | that number of items is determined by the table and the queue |
| MailQueue.RetouchedByLast | baruwa/commands/queuestats.py:38-45 | of several items that apply to a row the last one decides its values |
| MailQueue.DoneExactly | baruwa/commands/queuestats.py:33-78 | entering a queue runs through if and only if new recipients all have a domain and each lookup has exactly one row beforehand: no item of the queue disturbs the lookups of another |
| MailQueue.EffectAppend | baruwa/commands/queuestats.py:135-136 | the two queues in turn equal one queue of both |
| QueueRows.EveryRow | baruwa/commands/queuestats.py:35-78 | of any table and queues, also when the run faults: each row afterwards was there before, but for attempts, last attempt and direction, or is one entered for a recipient of a queued item, with message id, host, sender, attempts, last attempt, direction and the other copied columns of the item, flag 0, the recipient's domain from after its first `@` up to the next, and the sender's likewise or NULL |
| QueueRows.OldRow | baruwa/commands/queuestats.py:35-136 | of a ready table: a row goes if its message is one of this host's and no longer queued; else it stays, with attempts, last attempt and direction of the item that updates it, or unchanged |
| QueueRows.RunFinishes | baruwa/commands/queuestats.py:33-78 | of any table and queues: a run finishes if and only if each queued item of a message with rows of this host has one recipient or exactly one row for each, and each other item has an `@` in every recipient |
| QueueRows.LookupRaises | baruwa/commands/queuestats.py:63-68 | the fault of an item is that of its first recipient without exactly one row: none found, or several |
| MailQueueRuns.Reconciled | baruwa/commands/queuestats.py:111-136 | after a run on a table that is ready for the snapshot, also where hosts share message ids: no lookup fails; this host has rows for exactly the queued messages that had rows or have a recipient; kept rows change only attempts, last attempt and direction, to the applying item's; each recipient of a new message gets exactly one row and no other count changes; (messageid, to_address) stays unique if and only if no new message has such a row of another host |
| MailQueueRuns.RunDoneExactly | baruwa/commands/queuestats.py:111-136 | the same of a whole run, for any table and any snapshot: it faults exactly when a lookup or an address of the table and snapshot at its start does |
| MailQueueRuns.GainedRecipientFaults | baruwa/commands/queuestats.py:63-68 | a message that gains a recipient while it is queued stops the run |
| MailQueueRuns.FollowsRetouched | baruwa/commands/queuestats.py:38-45 | a kept row takes its three fields from the item that applies to it and keeps identity and recipient |
| MailQueueRuns.MatchingAfter | baruwa/commands/queuestats.py:123-136 | how many rows each (messageid, to_address) has after a run, from the table and the snapshot before it |
| MailQueueRuns.NewMessageRows | baruwa/commands/queuestats.py:47-77 | a new message has one row for each recipient and none for others |
| MailQueueRuns.ForeignSurvives | baruwa/commands/queuestats.py:120-132 | of any table and any snapshot, also when the run faults: a row of another host survives, but for its three updated fields, if and only if its message is none of this host's or is still queued |
| MailQueueRuns.ForeignExactly | baruwa/commands/queuestats.py:38-45 | of any table and any snapshot, also when the run faults: the rows of other hosts are left as they are, in order, if and only if none is of a message of this host that is no longer queued, or that is queued and whose last item to apply to the row, of those before the fault, has other values; which these are is determined by the table and snapshot |
| MailQueueRuns.ForeignUntouched | baruwa/commands/queuestats.py:120-132 | so they are if hosts share no message ids |
| MailQueueRuns.SharedIdDeletes | baruwa/commands/queuestats.py:126-132 | two hosts with the same message id: a run that no longer has it queued deletes both rows |
| MailQueueRuns.SharedIdOverwrites | baruwa/commands/queuestats.py:38-45 | and one that has it queued for one recipient overwrites both |
| MailQueueRuns.IdempotentExactly | baruwa/commands/queuestats.py:111-136 | a second run on the same snapshots leaves the database as it is, through both paths, if and only if no new message has a row of another host that the second run would update or stumble on |
| MailQueueRuns.Idempotent | baruwa/commands/queuestats.py:111-136 | so it does where hosts share no message ids |
| MailQueueRuns.SecondRunOverwrites | baruwa/commands/queuestats.py:38-45 | where they do, a second run can overwrite a row the first has left alone |
| MailQueueRuns.FitsNext | baruwa/commands/queuestats.py:111-136 | a run leaves a table on which the next run cannot fail, if the recipients of a message still queued only shrink |
| MailQueueRuns.HistoryNeverFaults | baruwa/commands/queuestats.py:111-136 | over any sequence of one host's snapshots no lookup fails, the key stays unique, and other hosts' rows stay |
| MailQueueRuns.HostsNeverFault | baruwa/commands/queuestats.py:111-136 | over any interleaving of several hosts' runs on one table no lookup fails, the key stays unique, and each host's rows stay as its own last run has left them |
| MailQueueRuns.EmptyIsShared | baruwa/commands/queuestats.py:111-136 | an empty table is a start for any such interleaving |
| MailQueueRuns.FirstRunFits | baruwa/commands/queuestats.py:111-136 | a table without rows of this host is a valid start |
| RuleFile.ProcessDefaultRules | baruwa/lib/api.py:1308-1334 | the default's lines are shown last first, each rewritten on its own |
| RuleFile.Imported | baruwa/lib/api.py:1281-1299 | a line is imported unless it is a rename without a name; the rule is enabled and reads like the line as the default is displayed, unset options counting as empty |
| RuleFile.RenameRead | baruwa/lib/api.py:1281-1330 | a rename is imported and displayed as `renameto` with the name that follows, up to the end of the line; without a name it is displayed only |
| RuleFile.OtherRead | baruwa/lib/api.py:1281-1330 | any other line with an `@` in its action is imported and displayed as `email-addresses` with that action as option, and the rest as they are |
| RuleFile.FilteredExactly | baruwa/lib/api.py:1281-1330 | the lines a clone takes, displayed, are the displayed lines less the bare renames if and only if no action is spelled `renameto` |
| RuleFile.SpelledDiffers | baruwa/lib/api.py:1317-1328 | an action so spelled displays as a bare rename, yet is cloned |
| Policies.NextOrdering | baruwa/lib/api.py:1339-1345 | a new rule's ordering is one above the policy's highest, or 0 |
| PolicyEffects.AddPolicyEffect | baruwa/lib/api.py:1204-1218 | a policy with a free name is added under a new id, with the name and type submitted, disabled; nothing else changes |
| PolicyEffects.EditPolicyEffect | baruwa/lib/api.py:1221-1249 | for a policy with an enabled rule, a free name and a name or state that differs, the edit takes effect: name and state are those submitted, the type stays; disabling sets to 0 exactly the slots of its type that name it, globally and for each domain; other policies and all rules stay |
| PolicyEffects.EditPolicyRefused | baruwa/lib/api.py:1221-1249 | in all other cases nothing changes: no such policy, no enabled rule, nothing that differs, name taken |
| PolicyEffects.DeletePolicyEffect | baruwa/lib/api.py:1252-1270 | the policy and exactly its rules go, and the slots of its type that name it become 0 |
| PolicyEffects.ClonePolicyEffect | baruwa/lib/api.py:1273-1301 | the new policy is disabled; every new rule is one of the file's lines, at that line's index, and every line that is imported has one; old rules, other policies and slots stay |
| PolicyEffects.AddRuleEffect | baruwa/lib/api.py:1337-1354 | the rule holds the form submitted, above all rules of the policy by one, or at 0; nothing else changes |
| PolicyEffects.EditRuleEffect | baruwa/lib/api.py:1362-1391 | the rule holds the form submitted, in its place; disabling a policy's only rule disables and deselects the policy; nothing else changes |
| PolicyEffects.DeleteRuleEffect | baruwa/lib/api.py:1399-1421 | exactly that rule goes; with the only one the policy is disabled and deselected |
| PolicyEffects.MoveRuleEffect | baruwa/model/settings.py:251-290 | up is towards the higher ordering: the rule and the next one there exchange orderings; if there is none, nothing changes |
| PolicyEffects.SaveGlobalEffect | baruwa/lib/api.py:219-242 | the four global slots are those submitted if each is 0 or an enabled policy of the field's type, and else nothing changes |
| PolicyEffects.SaveDomainEffect | baruwa/lib/api.py:219-262 | on the same condition the domain's row holds the slots submitted, the other rows and their order stay, and a new row goes to the end |
| PolicyIntegrity.RunIntact | baruwa/lib/api.py:204-275 | over any sequence of operations each nonzero global or domain slot names an existing, enabled policy of its type, every enabled policy has a rule, orderings within a policy and policy names are distinct, and a domain has one row |
| PolicyIntegrity.ApplyIntact | baruwa/lib/api.py:1204-1426 | each single operation keeps the same |
| PolicyIntegrity.InitialIntact | baruwa/websetup.py:97-108 | the state the setup leaves has it |
| PolicyIntegrity.EditPolicyIntact | baruwa/lib/api.py:1221-1249 | enabling is guarded and disabling deselects, so renaming, enabling and disabling keep it |
| PolicyIntegrity.DeletePolicyIntact | baruwa/lib/api.py:1252-1270 | deleting a policy leaves no slot naming it and no rule of it |
| PolicyIntegrity.ClonePolicyIntact | baruwa/lib/api.py:1273-1301 | cloning the default keeps it |
| PolicyIntegrity.AddRuleIntact | baruwa/lib/api.py:1337-1354 | adding a rule keeps it |
| PolicyIntegrity.EditRuleIntact | baruwa/lib/api.py:1362-1391 | editing a rule keeps it, the only rule being disabled included |
| PolicyIntegrity.DeleteRuleIntact | baruwa/lib/api.py:1399-1421 | deleting a rule keeps it, the last one included |
| PolicyIntegrity.MoveRuleIntact | baruwa/model/settings.py:251-290 | moving a rule keeps it |
| PolicyIntegrity.SaveGlobalIntact | baruwa/lib/api.py:233-242 | saving the global slots keeps it, the choices being limited to those the form offers |
| PolicyIntegrity.SaveDomainIntact | baruwa/lib/api.py:250-262 | saving a domain's slots keeps it, whether or not the domain had a row |
| PolicyRules.ListingUnique | baruwa/lib/api.py:591-603 | distinct orderings make the descending listing unique |
| PolicyRules.ListingExists | baruwa/lib/api.py:591-603 | there always is a listing |
| PolicyRules.AddRuleHeads | baruwa/lib/api.py:1337-1354 | a new rule heads the listing, the others following in their order |
| PolicyRules.DeleteRuleRemoves | baruwa/lib/api.py:1399-1421 | deleting a rule takes exactly its entry out of the listing and keeps the order of the rest |
| PolicyRules.EditRuleKeepsListing | baruwa/lib/api.py:1362-1391 | editing a rule leaves the listing as it is |
| PolicyRules.MoveRuleExchanges | baruwa/model/settings.py:251-290 | moving exchanges a rule with the one above or below; at either end nothing changes |
| PolicyRules.MoveRoundTrip | baruwa/model/settings.py:251-290 | a move undone by the opposite move restores the store |
| PolicyRules.CloneListsDefault | baruwa/lib/api.py:1273-1334 | a fresh clone, listed in descending order, shows the entries of `process_default_rules` with bare renames filtered out, if and only if no action is spelled `renameto` |
| PolicyRules.LiveExactly | baruwa/lib/api.py:1372-1411 | every enabled policy keeps an enabled rule, except under exactly two operations: disabling or deleting its last enabled rule while disabled ones remain |
| PolicyRules.AlwaysLiveExactly | baruwa/lib/api.py:1204-1426 | over any sequence of operations every enabled policy keeps an enabled rule throughout if and only if none of the operations, at its turn, is one of those two |
| PolicyRules.StrandingHappens | baruwa/lib/api.py:1399-1421 | five operations from the setup's state leave an enabled policy without an enabled rule |
| PolicyRules.StrandedExactly | baruwa/lib/api.py:1204-1426 | a policy without an enabled rule stays one under exactly the operations that neither give it an enabled rule nor delete it |
| PolicyRules.StrandedIsStuck | baruwa/controllers/settings.py:839-864 | over any sequence of such operations the policy keeps its name, is not enabled again, and every submit of its form is rejected: renaming raises, anything else does nothing |
| PolicyStore.PolicyStore.Clear | baruwa/lib/api.py:1228-1234 | the policy is deselected in the global slot of its type and in every domain's |
| PolicyStore.PolicyStore.DisableDomainPolicies | baruwa/lib/api.py:268-275 | exactly the slots of the type that name the policy are set to 0 |
| PolicyStore.PolicyStore.AddPolicy | baruwa/lib/api.py:1204-1218 | equals its specification: a disabled policy is added unless the name is taken |
| PolicyStore.PolicyStore.ClonePolicy | baruwa/lib/api.py:1273-1301 | equals its specification: the file's rules, in the file's order, under a new policy |
| PolicyStore.PolicyStore.EditPolicy | baruwa/lib/api.py:1221-1249 | equals its specification, whose effect `PolicyEffects.EditPolicyEffect` states: the submitted name and state are stored; with the guard that removes the enabled field |
| PolicyStore.PolicyStore.DeletePolicy | baruwa/lib/api.py:1252-1266 | equals its specification: the policy goes with its rules and its slots |
| PolicyStore.PolicyStore.AddRule | baruwa/lib/api.py:1337-1354 | equals its specification: the rule is stored with the next ordering |
| PolicyStore.PolicyStore.MaxOrdering | baruwa/lib/api.py:1339-1345 | the aggregate over the rules gives the next ordering |
| PolicyStore.PolicyStore.EditRule | baruwa/lib/api.py:1362-1391 | equals its specification: disabling a policy's only rule takes the policy out of use |
| PolicyStore.PolicyStore.DeleteRule | baruwa/lib/api.py:1399-1421 | equals its specification: deleting a policy's last rule takes the policy out of use |
| PolicyStore.PolicyStore.FindNeighbour | baruwa/model/settings.py:251-280 | the rule found is the closest on the wanted side, and none is found only if there is none |
| PolicyStore.PolicyStore.MoveRule | baruwa/model/settings.py:251-290 | equals its specification: the two orderings are exchanged |
| PolicyStore.PolicyStore.Validate | baruwa/lib/api.py:219-230 | a form is accepted exactly when each choice is 0 or an enabled policy of the field's type |
| PolicyStore.PolicyStore.SaveGlobal | baruwa/lib/api.py:233-242 | equals its specification: the slots are those submitted, if all are offered |
| PolicyStore.PolicyStore.SaveDomain | baruwa/lib/api.py:250-262 | equals its specification: the domain's row is replaced or added |
| CacheLock.Memcached.AcquireLock | baruwa/lib/cache.py:38-40 | the lock is taken exactly when the key is not live, and then lives for the timeout |
| CacheLock.Memcached.ReleaseLock | baruwa/lib/cache.py:43-45 | the key is gone |
| CacheLock.Memcached.ReleaseLockAfter | baruwa/lib/cache.py:48-50 | a live key lives on for the delay; a dead one is not revived |
| CacheLock.RunKeepsHeld | baruwa/lib/cache.py:38-50 | over every run, whoever is inside is alone and the key in place is its own |
| CacheLock.ExclusionExactly | baruwa/lib/cache.py:24-50 | at most one worker is inside over all runs if and only if every critical section ends before the expiry |
| CacheLock.HeldKeyIsLive | baruwa/commands/dbclean.py:108-137 | while a worker is inside its key is live and every attempt fails |
| CacheLock.ReleaseAfterBlocks | baruwa/commands/quarantinereportsng.py:291-294 | leaving with `release_lock_after` keeps everyone out for the whole delay |
| CacheLock.CrashBlocksUntilTimeout | baruwa/lib/cache.py:38-40 | a crashed holder blocks others until its timeout has run, and no longer |
| ReportedTwice.AtMostOnceExactly | baruwa/commands/quarantinereportsng.py:94-179 | over all interleavings of report and pruning runs, each with its own window and time that messages are kept, a message is in at most one report sent to an ordinary user, if and only if every report run is over before its lock runs out and the stated inequalities between the longest window, the lags, and the shortest and longest times hold |
| ReportedTwice.InWholeDays | baruwa/commands/dbclean.py:119-132 | in whole days: exactly when report runs are over within the lock's five minutes, look back less than two days, and less than messages are ever kept |
| ReportedTwice.TwoDaysWithoutLag | baruwa/commands/dbclean.py:124-132 | with stamps taken at the commit, a window of up to two days is safe exactly when report runs are over within five minutes |
| Reports.SafeSuffices | baruwa/commands/quarantinereportsng.py:165-179 | the conditions suffice, for every run |
| ReportedTwice.UnsafeFails | baruwa/commands/quarantinereportsng.py:94-101 | without the inequalities there is a run that reports one message twice |
| ReportedTwice.OverlongFails | baruwa/commands/quarantinereportsng.py:234-294 | a report run that outlasts its lock lets another in, which sends the message it is about to send |
| Reports.RunKeepsInv | baruwa/commands/quarantinereportsng.py:140-179 | every run keeps the invariant: a reported message still in the table has a young enough release record or has left every window to come |
| PruneSteps.CommandIsSteps | baruwa/commands/dbclean.py:104-137 | whatever a run of the pruning job commits, with its own options, is for messages and release records what steps of the reporting machine do, so that runs with the job in them are runs of the machine |
| PruneSteps.CleanIsSteps | baruwa/commands/dbclean.py:119-132 | the job's two deletions from the release records, at the messages' cutoff and at two days, are those of the two steps |
| ReportJob.QuarantineReports.SendMsg | baruwa/commands/quarantinereportsng.py:94-147 | release records, stamped with the transaction's start, are committed exactly when mail to an ordinary user goes out |
| ReportJob.QuarantineReports.Newest | baruwa/commands/quarantinereportsng.py:164-177 | of the candidates the newest are picked, up to the maximum |
| ReportJob.QuarantineReports.ProcessReport | baruwa/commands/quarantinereportsng.py:149-179 | reporting to a user, with time passing before the clock is read, before the query and in sending, is a run of the machine's steps; the report holds the newest candidates |
| ReportJob.QuarantineReports.Command | baruwa/commands/quarantinereportsng.py:225-294 | so is the whole command, which does nothing when the lock is live; each committed report holds the newest candidates after those before it, as `ReportJob.ReportsHold` spells out, and its release records carry the start of its transaction |
| ReportJob.ReportsHold | baruwa/commands/quarantinereportsng.py:149-179 | each report of the command is for a visited ordinary user whose mail goes out; it holds only messages of the table that the user may see, quarantined, stamped within the window before the clock reading, without a release record and in no report before; another such message is left out only where the report has the maximum, none of it older |
| ReportJob.TxBegan | baruwa/commands/quarantinereportsng.py:140-144 | the transaction a user is served in began when the last user before was done who got a report, or with the command |
| ReportJob.StampedExactly | baruwa/commands/quarantinereportsng.py:140-144 | the new release records are one for each message in a report, with the start of that report's transaction |
| ReportJob.LagExactly | baruwa/commands/quarantinereportsng.py:140-144 | a stamp lags behind the reading of the clock by exactly the time since the last commit; so by more than nothing unless all of it took no time |
| ReportJob.LagWithin | baruwa/commands/quarantinereportsng.py:225-294 | a stamp never lags by more than the command takes, so by no more than the lock is held |
| ReportJob.LateStamp | baruwa/commands/quarantinereportsng.py:140-179 | a run of the command whose stamp lags by a second |
| DbClean.Session.InsertOld | baruwa/commands/dbclean.py:38-43 | all old rows are copied, or an id already archived makes it fail without effect |
| DbClean.Session.ProcessMessages | baruwa/commands/dbclean.py:36-56 | the rows are moved and committed, or the error exit commits nothing |
| DbClean.Session.PruneArchive | baruwa/commands/dbclean.py:68-73 | archived rows older than the cutoff go |
| DbClean.Session.PruneTables | baruwa/commands/dbclean.py:128-134 | the remaining tables lose exactly the rows older than their cutoffs |
| DbClean.Session.Clean | baruwa/commands/dbclean.py:126-137 | what a run commits, on either exit |
| DbClean.Session.Command | baruwa/commands/dbclean.py:104-137 | the same under the lock, which a run on either exit gives up and which keeps other runs out: a positive option overrides the configured days, and each table keeps the rows that are no older than its cutoff |
| DbClean.CleanedMeans | baruwa/commands/dbclean.py:36-134 | what a run leaves in each of the five tables, row by row, or that it takes the error exit and leaves all as it was |
| DbClean.MovedConserves | baruwa/commands/dbclean.py:36-56 | moving loses, adds and duplicates nothing |
| DbClean.Survival | baruwa/commands/dbclean.py:110-128 | a message survives a run, unchanged and in one table, exactly if it is no older than the earlier of the two cutoffs |
| DbClean.HistoryFaithful | baruwa/commands/dbclean.py:36-137 | over any history no id is in both tables, so the error exit is never taken, and every row is mail that arrived |
| DbClean.NeverConflicts | baruwa/commands/dbclean.py:36-137 | so from empty tables on |
| DbClean.NothingLost | baruwa/commands/dbclean.py:36-137 | over any history, mail that no archive cutoff reaches is never lost |
| DbClean.ConflictIsForever | baruwa/commands/dbclean.py:44-51 | an id in both tables would stop archiving for good |
| OverrideStore.SettingsPage.CheckField | baruwa/controllers/settings.py:106-112 | equals the specification of the scanner check |
| OverrideStore.SettingsPage.Section | baruwa/controllers/settings.py:312-385 | a submit is the fields' effects one after the other, as `OverrideStore.FormTakesEffect` spells them out: values that are not blank take effect, blank ones and the token change nothing; and it says whether anything was updated |
| OverrideStore.FormTakesEffect | baruwa/controllers/settings.py:312-385 | a whole form, setting by setting: text that is not empty and numbers other than 0 are stored as submitted, as text and decimal digits, or not at all if they are the default; no value, empty text, 0 and the token leave the setting; a list is stored less what the check removes, unless it is empty, the default, or reads as stored already; other settings stay; and exactly when the page reports an update |
| OverrideStore.CheckedMeans | baruwa/controllers/settings.py:106-112 | the check removes one `auto` and one `none` from several `virusscanners`, and nothing otherwise |
| OverrideStore.FirstRemoved | baruwa/controllers/settings.py:106-112 | what is removed is the first occurrence |
| OverrideStore.ListMeans | baruwa/controllers/settings.py:115-120 | a list is stored in braces, with commas between its choices |
| OverrideStore.SingleTakesEffect | baruwa/controllers/settings.py:314-385 | a single value takes effect exactly if it is neither absent, empty text nor 0, or was in effect already |
| OverrideStore.ListTakesEffect | baruwa/controllers/settings.py:115-120 | with any choices, repeated ones too: a nonempty list that is not the default is stored less what the check removes, and otherwise none is, if and only if the list is not stale, that is, not stored to the letter although the check or the default calls for another |
| OverrideStore.DefaultStoredExactly | baruwa/controllers/settings.py:331-385 | where no default is stored, a submit stores one if and only if the scanners are submitted with `auto` twice, and at most `none` besides, and that list is not found stored already |
| OverrideStore.DefaultsOnlySo | baruwa/controllers/settings.py:312-385 | over any sequence of submits from a store without the default, as the empty one is, a default comes to be stored if and only if some submit, at its turn, is such a one |
| OverrideStore.SubmitTakesEffect | baruwa/controllers/settings.py:312-385 | the same of every field of a whole form; and every single value that is not blank takes effect |
| OverrideStore.OnceEach | baruwa/controllers/settings.py:312-385 | choices that are not repeated never do either |
| OverrideStore.TwiceAutoStored | baruwa/controllers/settings.py:106-112 | `auto` submitted twice is stored as the default |
| OverrideStore.ThriceThenTwice | baruwa/controllers/settings.py:359-360 | `auto` submitted three times and then twice leaves it stored twice |
| OverrideStore.SkippedUnchanged | baruwa/controllers/settings.py:314-316 | over a whole form, a setting stays unless a field that is not skipped stands for it |
| OverrideStore.SubmitAgain | baruwa/controllers/settings.py:312-385 | submitting the same form again leaves the store as it is |
| OverrideStore.CheckedIsDefault | baruwa/controllers/settings.py:106-112 | the scanner check turns another choice into the default exactly if `auto` is chosen twice, with at most one more choice, `none` |
| OverrideStore.ParseRender | baruwa/controllers/settings.py:115-120 | a stored list reads back as itself |
| OverrideStore.RenderInjective | baruwa/controllers/settings.py:341 | different values of one type are stored as different texts |
| OverrideStore.NumberAlwaysUpdated | baruwa/controllers/settings.py:359-371 | a stored number, being compared as text, counts as updated at every submit |
| Pagination.Window | baruwa/lib/pagination.py:33-65 | for any number of pages and a page that exists, the page list is consecutive, inside 1..pages, and holds the page and its neighbours; a link to the first or last page stands for at least two pages, never one |
| Pagination.ListedExactly | baruwa/lib/pagination.py:33-40 | whatever page is asked for, only existing pages are listed, and it is listed if and only if it exists |
| Pagination.PagesListed | baruwa/lib/pagination.py:33-65 | exactly which pages are listed, in ascending order, for any page asked for; there is a next page exactly before the last, a previous one exactly away from the first |
| Pagination.PagesCounted | baruwa/lib/pagination.py:28-32 | the pages hold the total, the last not being empty; no rows, no pages |
| Pagination.PageExists | baruwa/lib/pagination.py:28-32 | the number of pages rounded up: a page exists if and only if it has a row |
| Pagination.RowBounds | baruwa/lib/pagination.py:28-49 | a page's rows start and end where its number says, the last page at the total |
| Pagination.RangesTile | baruwa/lib/pagination.py:41-49 | the row ranges of all pages tile 1..total |
| Pagination.RowOnOnePage | baruwa/lib/pagination.py:41-49 | each row is on exactly one page |
| QuarantineDates.OrderIsDayOrder | baruwa/commands/cleanquarantine.py:56-61 | dates compare as their day counts do |
| QuarantineDates.OrdinalFormula | baruwa/commands/cleanquarantine.py:54-61 | counting the days one by one agrees with the Gregorian formula |
| QuarantineDates.CalendarMeans | baruwa/commands/cleanquarantine.py:54-59 | the lengths of the months and the day count of every date, in numbers |
| QuarantineDates.FromOrdinalFinds | baruwa/commands/cleanquarantine.py:54-55 | every date is found again from its day count |
| QuarantineDates.MinusCounts | baruwa/commands/cleanquarantine.py:54-55 | subtracting days subtracts from the day count, and fails exactly outside the calendar |
| QuarantineDates.PrunedByAge | baruwa/commands/cleanquarantine.py:42-61 | a directory goes exactly if it is more than the retained number of days old; exactly when it raises |
| QuarantineDates.NameMeans | baruwa/commands/cleanquarantine.py:42-61 | of a name of eight characters, digit by digit: when it stays, goes or raises, and what it raises |
| QuarantineDates.NameOrderIsDateOrder | baruwa/commands/cleanquarantine.py:56-61 | names of eight digits sort as their dates do |
| QuarantineDates.GoneIsPrefix | baruwa/commands/cleanquarantine.py:101-105 | of sorted names of dates, those that go are a prefix |
| QuarantineDates.Select | baruwa/commands/cleanquarantine.py:101-104 | the selection is sorted and holds exactly the names that go; a single name that is no date stops it |
| QuarantineDates.NoDateStops | baruwa/commands/cleanquarantine.py:56-59 | such a name is `20240231` |

## Left out

- Web pages, sessions, themes, mail rendering and delivery, LDAP, task dispatch, audit logs and unique ids: user interface and foreign calls.
- Regeneration of the backend's rule files (`baruwa/lib/backend.py`): its generators are templates and file output.
- Pagination.PageExists: the floating-point division inside `ceil` is exact here; rounding beyond 2^53 is not modelled.
- AccessFilter.FilterSphinx: Sphinx's limit on results and the search of the archive's index are not modelled; the live index is assumed to hold the live table's rows, hashed as the program hashes. For a user without any message the program writes an empty list, which Sphinx refuses; here that list passes nothing.
- Which strings match under `ILIKE` and `regexp`, and how the database compares text, are relations the lemmas hold for all of, with `>` and `<=` following from `<` and `=`.
- JsQuote.QuoteJsRoundTrip: starts from Unicode text; decoding a byte string as UTF-8 and refusing other types are not modelled.
- Removal of message files from the spool and parsing of spool files: a snapshot is given.
- MailQueueRuns.Reconciled: assumes what two spools promise, that a message is in one of them with distinct recipients, that new messages are for addresses with a domain, and that every recipient of a message with rows has its row, as is so when recipients only shrink (`MailQueueRuns.FitsNext`); `MailQueueRuns.RunDoneExactly`, `MailQueueRuns.ForeignSurvives` and `MailQueueRuns.ForeignExactly` assume none of it.
- QueueRows.OldRow: assumes the same of table and queues; `QueueRows.EveryRow` and `QueueRows.RunFinishes` assume nothing.
- MailQueueRuns.HostsNeverFault: each message id belongs to one host; what happens where two share one is stated for a single run.
- PolicyIntegrity.RunIntact: holds between operations; an operation commits more than once, and what another session sees between two of its commits is not modelled.
- Validation of names, expressions and domains in forms; the slot forms are limited to the choices they offer, as the form options do.
- TaggedAddress.TaggedAdmits: a pattern that ends inside an escape matches nothing here; PostgreSQL may report an error instead.
- PolicyStore.PolicyStore.MoveRule: asks for distinct orderings, which every operation keeps; with equal ones the database's choice is not modelled.
- CacheLock.ExclusionExactly: memcached forgetting a live key under memory pressure is not modelled.
- ReportedTwice.AtMostOnceExactly: the release records are committed with the send; a crash between the mail server's acceptance and the commit is not modelled.
- ReportedTwice.InWholeDays: for stamps that lag by any amount; without lag `ReportedTwice.AtMostOnceExactly` still says when it holds.
- OverrideStore.SettingsPage.Section: fields are known by the name they are stored under; the mapping of labels to external names is not modelled, nor two fields stored under one name. Lists are taken to be of choices that need no quoting in an array literal, as all choices of these forms are.
- ReportJob.QuarantineReports.Command: which seconds pass is given, and no other step happens in between; the machine's runs have other steps anywhere. The transaction is taken to begin with the query for the users.
- QuarantineDates.Select: reading the directories, clearing the quarantine flag of their messages and removing them are not modelled.
- The older `pdfreport.py` and `quarantinereport.py`, `updatedelta.py` and `caching_query.py`: superseded, or resting on index definitions and caches that are not part of this model.
