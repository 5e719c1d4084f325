# Verified model of NethSecurity's stateful components

A Dafny model of seven parts of NethSecurity that hold state or transform data, with proofs of what
they promise. `dafny verify dfyconfig.toml` checks everything.

| part | files | what is proved |
|---|---|---|
| LDIF writer and parser | `Base64`, `LdifLines`, `LdifWriter`, `LdifParser`, `LdifRoundTrip` | write-then-read round trip through attribute lines, base64, folding and blocks, and exactly when it is the identity |
| DPI rules | `AddressRange`, `Criteria`, `DpiStore`, `DpiRuleLaws`, `DpiPriority`, `DpiInvariant`, `DpiRuns`, `DpiFreeze`, `DpiFrozenText`, `DpiMigration`, `DpiMigrationLaws`, `DpiUpgrade`, `DpiConfig` | the criteria compiler preserves meaning, and exactly when its text reads back; when each operation is accepted and what it stores; dense priorities and first-match effects of every operation; over all runs and across the schema migration the evaluation order, the priorities, the names of groups and what makes criteria non-empty; exactly when the migration fails, and what it does to every exemption and old rule |
| Snort rules | `SnortOptions`, `SnortRoundTrip`, `SnortRules`, `SnortLaws`, `SnortParser`, `Flowbits` | option round trip with its exact condition, add-then-remove, which headers and options are accepted, least closure of flowbit dependencies |
| Objects | `Objects`, `ObjectIps`, `ObjectLaws`, `ObjectsConfig` | acyclic references over all runs; on any acyclic store expansion ends, equals the tree deduplicated once, and exactly when it raises and which addresses it gives |
| Firewall | `FirewallStore`, `FirewallOrder`, `FirewallRules`, `FirewallLaws`, `FirewallExpand`, `FirewallObjects`, `FirewallConfig` | moves realise a stable partition, top and bottom insertion, idempotent expansion and exactly when it raises |
| Rate limiter | `RateLimit`, `RateLimitLaws`, `RateLimiter` | eviction is unobservable exactly when buckets refill in time, bound per window, exactly which requests are allowed |
| Log sanitizer, network hook | `Sanitize`, `Multiwan`, `CleanNetwork`, `NetworkCleaner` | no address survives; what the cascade deletes and when it leaves nothing dangling |

`Sequences`, `Text`, `Uci` and `Wrappers` hold what the parts share. UCI is an ordered map from section
id to section (`Uci.Config`): setting a new section appends it, and an external `uci reorder` moves a
section to an index.

Code that changes state is modelled by classes and loops (`DpiConfig`, `FirewallConfig`, `ObjectsConfig`,
`NetworkCleaner`, `LdifWriter`, `LdifParser`, `SnortParser`, `RateLimiter`, `Flowbits`). Their methods are
proved equal to functions of the old state, and the laws are lemmas about those functions. The laws spell out the
names of options, commands, characters and numbers that they speak of, apart from the definitions of the functions.

## Edge cases the model keeps

Where the code and its comments differ, the model follows the code.

- `FlowbitResolver` assigns `rule.enabled`, which makes an attribute that hides the dictionary entry; the
  entry `rule["enabled"]` stays as it was (`Flowbits.Rule`).
- `build_rule_criteria` lower-cases every kind of member but applications, while validation accepts an
  application in any case (`Criteria.ApplicationCaseMatters`, `DpiStore.AcceptedAppMissed`).
- `__validate_source` accepts whatever `ip_network` accepts, and that is an IPv6 scope id with any characters but
  a slash or another percent sign. `fe80::1%a) && (local_ip == ::` is stored and pasted into the criteria, which
  then reads as two blocks (`DpiStore.ScopedSourceAccepted`, `Criteria.ScopedSourceReadsAsTwo`); the exact condition
  for a criteria to read back is in `Criteria.CriteriaMeaning` and `DpiInvariant.CriteriaAfterRun`.
- `freeze_legacy_criteria` looks up objects and raises with a malformed one, so a legacy rule alone can stop the
  migration (`DpiUpgrade.BlockedSourceStopsMigration`). Its comment calls the expression semicolon-terminated, which
  a rule's own criteria need not be (`DpiFreeze.FrozenTerminatedIff`).
- Two IPv6 addresses that differ in their scope id only are in no order, so no range has them as ends
  (`Criteria.Address`).
- `parse` stores a `flowbits` option without a value, and resolving then raises (`Flowbits.FlowbitResolver.Resolve`).
- `migrate_schema` keeps `ns_managed` on a rule it freezes (`DpiUpgrade.MigrationGoodIff`).
- An option named `options` overwrites a rule's list of options. A rule whose list became the empty text can be
  rebuilt by `remove_option`, every other such rule raises when it is changed (`SnortRules.RemoveFromEmptied`).
- `find_opt_end` steps past the character behind an escaped semicolon at an even index, so it can miss an
  option's end (`SnortOptions.FindOptEndIff`). Rebuilding an empty option list prints one empty option.
- `edit_host_set` checks for loops only if the section is a host set (`Objects.EditsKeepAcyclicIff`).
- `order_rules` of the firewall accepts any order that contains all rules, with repetitions and foreign ids;
  what then happens is `FirewallRules.OrderRulesExact`.
- The network hook reads all multi-WAN sections again for every removed interface, so a second one raises
  (`CleanNetwork.CompletesIff`). It does not rewrite rules that keep a policy, it deletes rules that have no
  policy at all, and the removal of an option counts as the removal of the interface.

## Model

| member | source | states |
|---|---|---|
| `Base64.DecodeEncode` | packages/python3-nethsec/src/nethsec/ldif/__init__.py:145-158 | Base64 (section 4 of RFC 4648) decodes every encoded byte sequence back to itself. |
| `Base64.EncodeBytesUnwrapped` | packages/python3-nethsec/src/nethsec/ldif/__init__.py:149-158 | Dropping the line feeds that the encoder inserts every 76 characters leaves one plain base64 text, so the attribute line holds no line break. |
| `Base64.EncodeIsRfc4648` | packages/python3-nethsec/src/nethsec/ldif/__init__.py:154-156 | The encoder writes byte for byte what RFC 4648 (section 4, table 1) defines: three bytes as four digits to the base 64, a shorter end padded. |
| `LdifLines.FragmentsFit` | packages/python3-nethsec/src/nethsec/ldif/__init__.py:121-135 | No physical line of a folded line is longer than the column limit. |
| `LdifLines.UnfoldFoldAll` | packages/python3-nethsec/src/nethsec/ldif/__init__.py:121-135 | Cutting the folded text of any list of logical lines into physical lines and unfolding gives the list back, every physical line fits, and none starts a continuation of something before. |
| `LdifWriter.LDIFWriter.FoldLine` | packages/python3-nethsec/src/nethsec/ldif/__init__.py:121-135 | The loop that moves the position writes exactly the folded line and nothing else. |
| `LdifWriter.LDIFWriter.UnparseAttr` | packages/python3-nethsec/src/nethsec/ldif/__init__.py:149-158 | One attribute line, plain or base64, is folded and written; a type that is not ASCII is refused without output. |
| `LdifWriter.LDIFWriter.UnparseEntryRecord` | packages/python3-nethsec/src/nethsec/ldif/__init__.py:160-167 | The lines of all attributes and values are written in order. |
| `LdifWriter.LDIFWriter.Unparse` | packages/python3-nethsec/src/nethsec/ldif/__init__.py:206-223 | A record is its dn line, its attribute lines and one empty line, and is counted as written. |
| `LdifParser.LDIFParser.UnfoldOne` | packages/python3-nethsec/src/nethsec/ldif/__init__.py:294-313 | The inner loop glues exactly the continuation lines onto a line and leaves the next line pending. |
| `LdifParser.LDIFParser.IterUnfoldedLines` | packages/python3-nethsec/src/nethsec/ldif/__init__.py:294-313 | The loop yields the unfolded logical lines of the rest of the input without comments. |
| `LdifParser.LDIFParser.IterBlocks` | packages/python3-nethsec/src/nethsec/ldif/__init__.py:315-327 | The logical lines are cut into blocks at empty lines. |
| `LdifParser.LDIFParser.ParseEntryRecord` | packages/python3-nethsec/src/nethsec/ldif/__init__.py:388-418 | A block is read line by line into a dn and grouped values, failing on the first bad line. |
| `LdifParser.LDIFParser.ParseAll` | packages/python3-nethsec/src/nethsec/ldif/__init__.py:275-282 | All records of the input in order, or a failure where some record raises; counted as read are all blocks, or those up to and with the first that raises. |
| `LdifRoundTrip.ParseOfOutput` | packages/python3-nethsec/src/nethsec/ldif/__init__.py:206-223 | Parsing the concatenated output of any writable records gives one record each, in order, values unchanged where they were encoded and stripped where they were not; record counts agree and every physical line fits. |
| `LdifRoundTrip.EncodedIff` | packages/python3-nethsec/src/nethsec/ldif/__init__.py:75-80 | A value is written in base64 exactly if it is raw, its type is listed in any case, some byte is 0, 10, 13 or above 127, or the first byte is 32, 58 or 60. |
| `LdifRoundTrip.LineOfValue` | packages/python3-nethsec/src/nethsec/ldif/__init__.py:149-158 | Behind the type stand two colons, a blank and the base64 text in that case, otherwise a colon, a blank and the value. |
| `LdifRoundTrip.CommentDropped` | packages/python3-nethsec/src/nethsec/ldif/__init__.py:294-313 | A line that starts with a hash disappears with nothing else, unless the next line continues it. |
| `LdifRoundTrip.SpecialLines` | packages/python3-nethsec/src/nethsec/ldif/__init__.py:388-418 | A `version` line before the dn says nothing, and the value of a `:<` line is empty, as no URL is fetched. |
| `LdifRoundTrip.RoundTripIff` | packages/python3-nethsec/src/nethsec/ldif/__init__.py:388-418 | The parse equals what was written exactly when every attribute has values and is not ignored in any case, and every dn and value is raw, of a type listed for base64 in any case, holds a byte 0, 10, 13 or above 127, starts with 32, 58 or 60, or has no blank (9 to 13, 32) at either end. |
| `LdifRoundTrip.WriteAndRead` | packages/python3-nethsec/src/nethsec/ldif/__init__.py:275-282 | Writing the records with the writer object and reading the text with the parser object: as many read as written, the records of the parse, and unchanged exactly if nothing of them is lost in the sense of the row above. |
| `AddressRange.SummarizeIsExact` | packages/python3-nethsec/src/nethsec/dpi/__init__.py:638-656 | A range becomes aligned, ascending, disjoint CIDR blocks (section 3.1 of RFC 4632) that cover exactly the range, at most twice as many as the address has bits. |
| `Criteria.RangeMeans` | packages/python3-nethsec/src/nethsec/dpi/__init__.py:604-608 | A range stands around its first dash; its ends are addresses of one family in order, and it denotes what lies between them. |
| `Criteria.ExpandSource` | packages/python3-nethsec/src/nethsec/dpi/__init__.py:638-656 | The loop over source values yields the expansion value by value, and fails where the address library would raise. |
| `Criteria.ExpandSourcePreserves` | packages/python3-nethsec/src/nethsec/dpi/__init__.py:638-656 | For valid sources the expansion denotes the same addresses, contains no range, is empty only for no source, each entry parses, and no entry holds a blank or a closing parenthesis exactly if no source but a range does. |
| `Criteria.ExpandAppgroups` | packages/python3-nethsec/src/nethsec/dpi/__init__.py:505-537 | The four nested loops with their set of terms seen yield the disjunction of the deduplicated terms of all groups. |
| `Criteria.GroupTermsMeaning` | packages/python3-nethsec/src/nethsec/dpi/__init__.py:505-537 | Lower-casing, merging and deduplicating members keeps the meaning: the terms match a flow exactly when some member of some group does. |
| `Criteria.CriteriaIsPrinted` | packages/python3-nethsec/src/nethsec/dpi/__init__.py:659-680 | The text assembled by string operations is the print of one small expression. |
| `Criteria.ReadBackIff` | packages/python3-nethsec/src/nethsec/dpi/__init__.py:659-680 | A printed expression is read back as itself, by a reader with the syntax of the engine spelled out apart from the printer, exactly if its networks hold no blank and no closing parenthesis and its members no quote. |
| `Criteria.CriteriaMeaning` | packages/python3-nethsec/src/nethsec/dpi/__init__.py:659-680 | For every rule that passed validation and every flow: the text is not empty and is the print of an expression that is true exactly when the local address is in some source (or there is none) and the application, its category, the protocol or its category is held by some group (or the rule is match-all). The text reads back as that expression, and so matches exactly these flows, exactly if no member it names holds a quote and no source but a range holds a blank or a closing parenthesis. |
| `Criteria.ScopedSourceReadsAsTwo` | packages/python3-nethsec/src/nethsec/dpi/__init__.py:674-679 | A source with an IPv6 scope id that holds blanks and parentheses is pasted in as it is, and the text then reads back as two blocks instead of one. |
| `DpiStore.ScopedSourceAccepted` | packages/python3-nethsec/src/nethsec/dpi/__init__.py:592-613 | The validation of sources lets that source pass, if the address library takes it for a network. |
| `Criteria.WellGroupedNotEmpty` | packages/python3-nethsec/src/nethsec/dpi/__init__.py:659-680 | A rule that is match-all without groups, or names existing groups with members, never gets an empty criteria text. |
| `Criteria.ApplicationCaseMatters` | packages/python3-nethsec/src/nethsec/dpi/__init__.py:505-537 | Applications are the one kind that is not lower-cased: for all flows reported in lower case the emitted terms match as if case did not matter exactly if every application the groups hold is also held in lower case. |
| `DpiStore.AcceptedAppMissed` | packages/python3-nethsec/src/nethsec/dpi/__init__.py:257-292 | An application whose lower-cased name is in the vocabulary is accepted in any other case, and the terms of its group then miss a flow of that application. |
| `DpiStore.ValidateMembers` | packages/python3-nethsec/src/nethsec/dpi/__init__.py:257-292 | Member lists are stripped, checked against forbidden characters and the vocabulary, and deduplicated; the first bad one refuses. |
| `DpiStore.ValidateSource` | packages/python3-nethsec/src/nethsec/dpi/__init__.py:592-613 | Sources are stripped, checked and deduplicated, in order. |
| `DpiStore.CheckedSourceMeaning` | packages/python3-nethsec/src/nethsec/dpi/__init__.py:592-613 | Accepted sources are valid, without repetition, and exactly the stripped inputs. |
| `DpiStore.CollectAppgroups` | packages/python3-nethsec/src/nethsec/dpi/__init__.py:616-635 | Group references are accepted exactly if all exist, and deduplicated. |
| `DpiStore.ValidateAppgroups` | packages/python3-nethsec/src/nethsec/dpi/__init__.py:616-635 | A rule has groups exactly if it is not match-all. |
| `DpiStore.CheckOrder` | packages/python3-nethsec/src/nethsec/dpi/__init__.py:919-945 | An order is refused for repetition, unknown or missing rules. |
| `DpiRuleLaws.AddRuleIff` | packages/python3-nethsec/src/nethsec/dpi/__init__.py:745-785 | A rule is added exactly if its name has 1 to 64 characters without blanks at the ends, its action is block or allow, its position top or bottom, its sources are readable, and it is match-all or names groups that exist. It then holds exactly what was asked for, without blanks and repetition, is managed, and every other section stays up to priorities. |
| `DpiRuleLaws.WhyRuleRefused` | packages/python3-nethsec/src/nethsec/dpi/__init__.py:745-785 | Otherwise the refusal names the first of these conditions that fails. |
| `DpiRuleLaws.EditRuleIff` | packages/python3-nethsec/src/nethsec/dpi/__init__.py:788-826 | A rule is edited exactly if it is managed and the same conditions hold; then exactly its name, action, target and mark change. |
| `DpiRuleLaws.DeleteRuleIff` | packages/python3-nethsec/src/nethsec/dpi/__init__.py:829-849 | A rule is deleted exactly if it exists; every other section stays up to priorities. |
| `DpiRuleLaws.RelabelIff` | packages/python3-nethsec/src/nethsec/dpi/__init__.py:852-916 | Renaming, enabling and disabling change exactly the name, or the mark to the one asked for. |
| `DpiRuleLaws.EnableRuleFirstMatch` | packages/python3-nethsec/src/nethsec/dpi/__init__.py:875-894 | An enabled rule gets exactly the flows that it matches and no enabled rule before it does. |
| `DpiRuleLaws.CheckedMembersIff` | packages/python3-nethsec/src/nethsec/dpi/__init__.py:257-292 | A member list is accepted exactly if every member is known to the vocabulary and holds none of nine characters; it names the kind otherwise. |
| `DpiRuleLaws.CheckedMembersKeeps` | packages/python3-nethsec/src/nethsec/dpi/__init__.py:257-292 | Of an accepted list the first spelling of every member is kept, without blanks and distinct up to case. |
| `DpiRuleLaws.SaveGroupIff` | packages/python3-nethsec/src/nethsec/dpi/__init__.py:419-476 | A group is added or edited exactly if its name is of the right length and free up to case, all four lists are accepted and one is not empty; it then holds just these lists, each in its place, and nothing else changes. |
| `DpiRuleLaws.DeleteGroupIff` | packages/python3-nethsec/src/nethsec/dpi/__init__.py:479-502 | A group is deleted exactly if it exists and no rule names it; nothing else changes. |
| `DpiPriority.SortRulesSorted` | packages/python3-nethsec/src/nethsec/dpi/__init__.py:554-565 | Rules are sorted by priority, with rules without a valid priority last. |
| `DpiPriority.SortRulesStable` | packages/python3-nethsec/src/nethsec/dpi/__init__.py:554-565 | Rules of equal priority stay in file order. |
| `DpiPriority.RenumberedRealises` | packages/python3-nethsec/src/nethsec/dpi/__init__.py:568-576 | Renumbering along any listing of the rules makes that listing the evaluation order, with priorities exactly 1..n. |
| `DpiPriority.AddRuleOrder` | packages/python3-nethsec/src/nethsec/dpi/__init__.py:745-785 | From any configuration an accepted addition leaves priorities exactly 1..n, the new rule first or last, and the others in their order; a refused one changes nothing. |
| `DpiPriority.DeleteRuleOrder` | packages/python3-nethsec/src/nethsec/dpi/__init__.py:829-849 | A deletion leaves priorities exactly 1..n and the others in their order. |
| `DpiPriority.OrderRulesOrder` | packages/python3-nethsec/src/nethsec/dpi/__init__.py:919-945 | An order is accepted exactly if it is a permutation of the rules, and is then realised exactly. |
| `DpiPriority.SetRuleOrder` | packages/python3-nethsec/src/nethsec/dpi/__init__.py:788-826 | Edits, renames and switches keep the evaluation order and dense priorities. |
| `DpiPriority.AddRuleFirstMatch` | packages/python3-nethsec/src/nethsec/dpi/__init__.py:745-785 | Under first match a rule added last affects only flows that no enabled rule matched; one added first takes every flow it matches and no other. |
| `DpiPriority.DeleteRuleFirstMatch` | packages/python3-nethsec/src/nethsec/dpi/__init__.py:829-849 | Deleting a rule changes the decision only for flows whose first match it was, which fall to the next match. |
| `DpiPriority.DisableRuleFirstMatch` | packages/python3-nethsec/src/nethsec/dpi/__init__.py:897-916 | The same for disabling a rule. |
| `DpiInvariant.StepGood` | packages/python3-nethsec/src/nethsec/dpi/__init__.py:448-502 | Every operation on groups and rules keeps the store good: groups have members, managed rules are match-all without groups or name existing groups, sources are valid. |
| `DpiInvariant.RunGood` | packages/python3-nethsec/src/nethsec/dpi/__init__.py:419-945 | Every run of operations from a good store ends in a good store. |
| `DpiRuns.StepView` | packages/python3-nethsec/src/nethsec/dpi/__init__.py:419-945 | Every operation does to the evaluation order what it does to a plain list: an accepted addition puts the rule first or last, a deletion takes it out, an order replaces the list, anything else leaves it. Priorities are 1..n after an operation exactly if they were before or it was an accepted addition, deletion or order. |
| `DpiRuns.RunView` | packages/python3-nethsec/src/nethsec/dpi/__init__.py:419-945 | Over every run the evaluation order is the list that the accepted operations make. |
| `DpiRuns.RunDenseIff` | packages/python3-nethsec/src/nethsec/dpi/__init__.py:568-576 | After a run the priorities are exactly 1..n if and only if they were at the start, or an addition, deletion or order was accepted on the way. |
| `DpiRuns.RunNames` | packages/python3-nethsec/src/nethsec/dpi/__init__.py:295-335 | Over every run no two groups have the same name up to case and blanks at the ends. |
| `DpiInvariant.CriteriaNeverEmpty` | packages/python3-nethsec/src/nethsec/dpi/__init__.py:659-680 | In every reachable state the criteria text of every managed rule exists and is not empty. |
| `DpiInvariant.CriteriaAfterRun` | packages/python3-nethsec/src/nethsec/dpi/__init__.py:659-680 | In every reachable state the criteria text of a managed rule is the print of an expression that means what the rule says, and reads back as it exactly if no source of the rule but a range holds a blank or a closing parenthesis; the engine then matches exactly what the rule says. |
| `DpiFreeze.FreezeLegacyCriteria` | packages/python3-nethsec/src/nethsec/dpi/__init__.py:954-1011 | The loops that build the criteria of a legacy rule from its own criteria, or from its sources, applications, protocols and categories, with the VLAN of its device in front; an object lookup that raises, or a network configuration that cannot be read, stops it. |
| `DpiFreeze.FreezeFailsIff` | packages/python3-nethsec/src/nethsec/dpi/__init__.py:969-1002 | Freezing a rule raises exactly if it has no criteria of its own and some source is an object whose lookup raises, or the network configuration cannot be read. |
| `DpiFreeze.FrozenTerminatedIff` | packages/python3-nethsec/src/nethsec/dpi/__init__.py:954-998 | The text ends in a semicolon exactly if the rule has no criteria of its own or one that ends so. |
| `DpiFreeze.FrozenEmptyIff` | packages/python3-nethsec/src/nethsec/dpi/__init__.py:972-998 | A rule without criteria of its own freezes into empty parentheses exactly if it names no application, protocol or category and every source is an object without addresses. |
| `DpiFrozenText.FrozenMeaning` | packages/python3-nethsec/src/nethsec/dpi/__init__.py:954-1011 | A reader with the old syntax spelled out reads the frozen text of a rule without criteria of its own as the rule's VLAN, device, addresses and members exactly if these hold nothing that ends a value early and there is something to match; it then matches exactly the flows on that VLAN and device, from one of the addresses, that one of the members names. |
| `DpiFrozenText.OwnCriteriaKept` | packages/python3-nethsec/src/nethsec/dpi/__init__.py:969-971 | A criteria of the rule's own is kept character by character behind the VLAN, double quotes turned into single ones. |
| `DpiMigration.MigrationOutcome` | packages/python3-nethsec/src/nethsec/dpi/__init__.py:1033-1126 | The migration fails exactly if some exemption names an object whose lookup raises or that expands to something no rule source accepts, or freezing some rule raises. Otherwise no exemption and no legacy field is left, the rules are one per exemption followed by the surviving rules in file order with priorities 1..n, and every section is as described. |
| `DpiMigration.MigrationTwice` | packages/python3-nethsec/src/nethsec/dpi/__init__.py:1033-1126 | A second migration changes nothing. |
| `DpiMigrationLaws.ExemptionLetsThrough` | packages/python3-nethsec/src/nethsec/dpi/__init__.py:1070-1090 | The i-th exemption is the i-th rule: its action is allow, its mark the one of the exemption, its name the description cut to 64 characters or a numbered one. It is managed and match-all with sources that denote exactly what the exemption denotes, if that is addresses, and otherwise unmanaged with the trimmed criteria closed by a semicolon. |
| `DpiMigrationLaws.ExemptionsDecideFirst` | packages/python3-nethsec/src/nethsec/dpi/__init__.py:1066-1092 | After the migration a flow that an enabled exemption covers is decided, and allowed, by the rule of the first one that does; any other flow is decided by the rules from before. |
| `DpiMigrationLaws.OldRuleFate` | packages/python3-nethsec/src/nethsec/dpi/__init__.py:1092-1120 | A rule without old fields stays; one with any is dropped exactly if it does not block or has nothing to match, and otherwise goes on blocking, numbered by name, with its old fields frozen into criteria of its own. |
| `DpiMigrationLaws.ShowNatDenotes` | packages/python3-nethsec/src/nethsec/dpi/__init__.py:1079-1080 | Numbers in names are decimal without leading zeros. |
| `DpiUpgrade.MigrationGoodIff` | packages/python3-nethsec/src/nethsec/dpi/__init__.py:1033-1126 | The migration of a good store ends in a good store exactly if no rule it freezes was managed, as freezing gives a rule a criteria of its own. |
| `DpiUpgrade.CriteriaSinceMigration` | packages/python3-nethsec/src/nethsec/dpi/__init__.py:1033-1126 | From a store of the old schema: after the migration and any run of operations, the criteria text of every managed rule exists and is not empty. |
| `DpiUpgrade.NamesSinceMigration` | packages/python3-nethsec/src/nethsec/dpi/__init__.py:1033-1126 | The migration keeps group names distinct, and so does every run after it. |
| `DpiUpgrade.DenseSinceMigration` | packages/python3-nethsec/src/nethsec/dpi/__init__.py:1092-1122 | After a migration that had something to do, the priorities are exactly 1..n over every run. |
| `DpiUpgrade.MigrationFailsIff` | packages/python3-nethsec/src/nethsec/dpi/__init__.py:1033-1126 | Over any acyclic object store, the migration fails exactly if some exemption names an object that holds a malformed name, directly or below, or that stands for something no rule source accepts; or if some rule is frozen and the network configuration cannot be read, or it has no criteria of its own and a source that is such an object. |
| `DpiUpgrade.BlockedSourceStopsMigration` | packages/python3-nethsec/src/nethsec/dpi/__init__.py:972-977 | One legacy rule with the source `objects/a/b` makes the migration fail, without any exemption. |
| `DpiConfig.Dpi.Renumber` | packages/python3-nethsec/src/nethsec/dpi/__init__.py:568-576 | The loop that writes priorities one by one realises the renumbering. |
| `DpiConfig.Dpi.ValidateAppgroup` | packages/python3-nethsec/src/nethsec/dpi/__init__.py:295-335 | A group is accepted with a unique clean name and at least one member. |
| `DpiConfig.Dpi.AddAppgroup` | packages/python3-nethsec/src/nethsec/dpi/__init__.py:419-445 | State and reply of adding a group. |
| `DpiConfig.Dpi.EditAppgroup` | packages/python3-nethsec/src/nethsec/dpi/__init__.py:448-476 | State and reply of editing a group. |
| `DpiConfig.Dpi.DeleteAppgroup` | packages/python3-nethsec/src/nethsec/dpi/__init__.py:479-502 | A group in use is not deleted. |
| `DpiConfig.Dpi.IsUsedAppgroup` | packages/python3-nethsec/src/nethsec/dpi/__init__.py:348-365 | The rules that name a group, in file order. |
| `DpiConfig.Dpi.AddRule` | packages/python3-nethsec/src/nethsec/dpi/__init__.py:745-785 | State and reply of adding a rule at either end. |
| `DpiConfig.Dpi.EditRule` | packages/python3-nethsec/src/nethsec/dpi/__init__.py:788-826 | State and reply of editing a rule. |
| `DpiConfig.Dpi.DeleteRule` | packages/python3-nethsec/src/nethsec/dpi/__init__.py:829-849 | State and reply of deleting a rule, with renumbering. |
| `DpiConfig.Dpi.SwitchRule` | packages/python3-nethsec/src/nethsec/dpi/__init__.py:875-916 | State and reply of enabling and disabling a rule. |
| `DpiConfig.Dpi.OrderRules` | packages/python3-nethsec/src/nethsec/dpi/__init__.py:919-945 | State and reply of ordering the rules. |
| `DpiConfig.Dpi.ReplaceExemptions` | packages/python3-nethsec/src/nethsec/dpi/__init__.py:1033-1070 | The first migration loop turns exemptions into rules at the top, one after the other. |
| `DpiConfig.Dpi.ReplaceLegacy` | packages/python3-nethsec/src/nethsec/dpi/__init__.py:1092-1120 | The second migration loop drops or freezes the legacy rules and lists the others, and stops where freezing raises. |
| `DpiConfig.Dpi.MigrateSchema` | packages/python3-nethsec/src/nethsec/dpi/__init__.py:1033-1126 | The migration performed step by step in the store. |
| `SnortOptions.FindEnd` | packages/python3-nethsec/src/nethsec/snort/__init__.py:189-198 | The loop that steps two characters past every escaped semicolon, with negative indices counted from the end and index errors. |
| `SnortOptions.FindOptEndIff` | packages/python3-nethsec/src/nethsec/snort/__init__.py:189-198 | The end of an option text is found exactly if every semicolon inside is escaped (or stepped over behind an escaped one at an even index), it does not end in a backslash, and its own semicolon is not stepped over unless it ends the whole text. |
| `SnortRoundTrip.SplitIsPlain` | packages/python3-nethsec/src/nethsec/snort/__init__.py:300-307 | Whatever text is split: options come out stripped, with the value behind the first colon. |
| `SnortRoundTrip.RebuildSplits` | packages/python3-nethsec/src/nethsec/snort/__init__.py:155-163 | A printed list of legible options is split back into the list. |
| `SnortRoundTrip.OptionsRoundTripIff` | packages/python3-nethsec/src/nethsec/snort/__init__.py:155-163 | Splitting the rebuilt list gives the list back exactly for non-empty lists of options whose ends can be found; the empty list comes back as one empty option. |
| `SnortRules.FormatRoundTrip` | packages/python3-nethsec/src/nethsec/snort/__init__.py:152-163 | Whatever was parsed: parsing the rule as it prints itself gives the same rule, with the enabled mark that was printed. |
| `SnortRules.ReparsedKeeps` | packages/python3-nethsec/src/nethsec/snort/__init__.py:174-187 | Rebuilding a rule around printable options and parsing it keeps header, enabled flag and group, and yields exactly those options. |
| `SnortRules.ReparsedIff` | packages/python3-nethsec/src/nethsec/snort/__init__.py:174-187 | A rule rebuilt around other options parses to exactly these options if and only if there are any, the end of each is found, the text holds no line break, and writing them into the rule does not raise; header, mark and group of whatever is parsed are the printed ones. |
| `SnortRules.EntriesKeptIff` | packages/python3-nethsec/src/nethsec/snort/__init__.py:322-330 | The rebuilt rule prints with the header, mark and group of the one it was made from exactly if no option of such a name puts another value in their place. |
| `SnortRules.AddThenRemove` | packages/python3-nethsec/src/nethsec/snort/__init__.py:165-187 | Adding an option anywhere and removing its name restores the options exactly if there were any and the name was absent (or the list was one empty option and the name is empty); header, enabled flag and group stay. |
| `SnortRules.RemoveFromEmptied` | packages/python3-nethsec/src/nethsec/snort/__init__.py:165-172 | If an option named `options` has overwritten the list with an empty text, removing any name leaves one empty option; if with anything else, it raises. |
| `SnortRules.PrintsEmpty` | packages/python3-nethsec/src/nethsec/snort/__init__.py:155-163 | No option and one empty option print alike, so removing the last option leaves an empty one. |
| `SnortLaws.ChangedRuleText` | packages/python3-nethsec/src/nethsec/snort/__init__.py:152-187 | A changed rule prints as its mark, its header and its options in parentheses: each as its name, a colon and the value if there is one, and a semicolon, with a blank between each two. |
| `SnortLaws.InsertedAt` | packages/python3-nethsec/src/nethsec/snort/__init__.py:174-183 | An option is added at the end, at a position from the front, or at one from the end, cut off at both ends. |
| `SnortLaws.MarkDecides` | packages/python3-nethsec/src/nethsec/snort/__init__.py:207-214 | Exactly a text that starts with a hash is a disabled rule. |
| `SnortParser.ReadTokens` | packages/python3-nethsec/src/nethsec/snort/__init__.py:233-278 | The state machine over header tokens, with bracketed lists. |
| `SnortParser.ReadOptions` | packages/python3-nethsec/src/nethsec/snort/__init__.py:294-333 | The loop that splits options off and writes them into the rule yields the split list and its effect, and raises where either does. |
| `SnortParser.ParseRule` | packages/python3-nethsec/src/nethsec/snort/__init__.py:200-336 | The parser: pattern, header check and option loop. |
| `SnortLaws.PatternIff` | packages/python3-nethsec/src/nethsec/snort/__init__.py:46-50 | Behind its marks a rule is a header without parentheses, and options on one line between the first parenthesis and one at the very end. |
| `SnortLaws.SevenTokens` | packages/python3-nethsec/src/nethsec/snort/__init__.py:227-281 | Seven tokens, words or lists in brackets, with a blank between each two are read as they are, and are a header exactly if the first one is one of nine actions. |
| `SnortLaws.OneWord` | packages/python3-nethsec/src/nethsec/snort/__init__.py:216-218 | One word is a header exactly if it is one of these actions. |
| `SnortLaws.WritesIff` | packages/python3-nethsec/src/nethsec/snort/__init__.py:309-333 | Writing the options into a rule raises exactly at a gid, sid or rev that is no number, at metadata or msg without a value, behind an option named `options`, or at a reference behind one named `references`; otherwise every option of another name than seven is an entry of the rule with its last value. |
| `SnortParser.SnortRule.AddOption` | packages/python3-nethsec/src/nethsec/snort/__init__.py:174-187 | The option is inserted in place where list.insert puts it, and the rebuilt text is parsed; a list that was overwritten by an option named `options` raises. |
| `SnortParser.SnortRule.RemoveOption` | packages/python3-nethsec/src/nethsec/snort/__init__.py:165-172 | All options of a name are taken out in place, and the rebuilt text is parsed; an overwritten list is empty if it was overwritten with the empty text, and raises otherwise. |
| `Flowbits.FlowbitResolver.GetRequiredFlowbits` | packages/python3-nethsec/src/nethsec/snort/__init__.py:421-436 | The bits that some enabled rule tests; it raises exactly if an enabled rule has a flowbits option without a value. |
| `Flowbits.FlowbitResolver.SetRequiredFlowbits` | packages/python3-nethsec/src/nethsec/snort/__init__.py:394-401 | Exactly the disabled rules that set a required bit are enabled and listed, and their dictionary entries are not changed; it raises exactly if a disabled rule has a flowbits option without a value. |
| `Flowbits.FlowbitResolver.Resolve` | packages/python3-nethsec/src/nethsec/snort/__init__.py:386-392 | Resolution raises exactly if some rule, enabled or not, has a flowbits option without a value. Otherwise it ends; the enabled rules are the least set that contains the rules enabled at first and is closed under needing a setter for every tested bit, for any listing order of the rules; the list grows by exactly the newly enabled rules. |
| `Flowbits.LeastClosedUnique` | packages/python3-nethsec/src/nethsec/snort/__init__.py:386-392 | There is one such set, so the result does not depend on iteration order. |
| `Flowbits.ParsedWrites` | packages/python3-nethsec/src/nethsec/snort/__init__.py:429-436 | Splitting at the first comma takes for writing a bit exactly the texts set, setx, unset and toggle, alone or before a comma and the bit. |
| `Flowbits.ParsedReads` | packages/python3-nethsec/src/nethsec/snort/__init__.py:429-436 | It takes for testing a bit exactly isset and isnotset in the same way. |
| `Objects.LoopFound` | packages/python3-nethsec/src/nethsec/objects/__init__.py:413-424 | The depth-bounded search is sound: whatever reaches the target is reported, since hitting the bound reports a loop too. |
| `Objects.EditAcyclic` | packages/python3-nethsec/src/nethsec/objects/__init__.py:426-440 | If no new member is reported as a loop, the edited reference graph is acyclic. |
| `Objects.StepKeepsGood` | packages/python3-nethsec/src/nethsec/objects/__init__.py:486-558 | Each addition, edit of a host set, deletion, or change of other configurations keeps the graph acyclic, every reference to a set resolved and every name well-formed. |
| `Objects.RunKeepsGood` | packages/python3-nethsec/src/nethsec/objects/__init__.py:486-558 | The same over every run. |
| `Objects.SelfMember` | packages/python3-nethsec/src/nethsec/objects/__init__.py:426-440 | A set that is not a host set accepts itself as a member, since the loop check is skipped for it. |
| `Objects.EditsKeepAcyclicIff` | packages/python3-nethsec/src/nethsec/objects/__init__.py:514-538 | All accepted edits of an existing set keep the graph acyclic exactly if it is a host set. |
| `Objects.DeleteKeepsGood` | packages/python3-nethsec/src/nethsec/objects/__init__.py:540-558 | Deleting an unused set leaves no reference to it. |
| `ObjectLaws.AddHostSetIff` | packages/python3-nethsec/src/nethsec/objects/__init__.py:486-512 | A set is added exactly if its name is alphanumeric and at most 16 characters long and every member is an address of the family or an object that exists; exactly this set is stored. |
| `ObjectLaws.EditHostSetIff` | packages/python3-nethsec/src/nethsec/objects/__init__.py:514-538 | A set is edited exactly if it exists, its name is short enough, its members are such, and, for a host set, none of them is taken for a loop; exactly name, family and members change. |
| `ObjectLaws.DeleteSetIff` | packages/python3-nethsec/src/nethsec/objects/__init__.py:540-558 | A set is deleted exactly if it exists, nothing is bound to it and no set has it as a member; nothing else changes. |
| `ObjectLaws.LoopIff` | packages/python3-nethsec/src/nethsec/objects/__init__.py:413-424 | A member is taken for a loop exactly if the set is reached from it in at most two steps, or anything at all in three. |
| `ObjectLaws.ObjectIdIff` | packages/python3-nethsec/src/nethsec/objects/__init__.py:22-34 | A name of an object starts with one of three databases and a slash. |
| `ObjectLaws.SetKindIff` | packages/python3-nethsec/src/nethsec/objects/__init__.py:165-181 | A name denotes a domain set, or a host set, exactly if it is `objects/` and the id of a set of that type. |
| `ObjectIps.BelowShrinks` | packages/python3-nethsec/src/nethsec/objects/__init__.py:106-145 | On an acyclic store a member can visit strictly fewer sets than the set it is in, so the expansion ends. |
| `ObjectIps.GetObjectIps` | packages/python3-nethsec/src/nethsec/objects/__init__.py:106-145 | On every acyclic store, dangling and malformed members included, the recursion that deduplicates at every level returns the whole reference tree, left to right, deduplicated once by first occurrence, or raises where the tree holds a malformed name. |
| `ObjectIps.ExpansionFailsIff` | packages/python3-nethsec/src/nethsec/objects/__init__.py:106-145 | On every acyclic store an expansion raises exactly for a name that does not split, or for a set that holds such a member, directly or below. |
| `ObjectIps.AddressesDistinct` | packages/python3-nethsec/src/nethsec/objects/__init__.py:106-145 | The result has no repetition and holds exactly what the tree holds. |
| `ObjectIps.ExpansionCompletes` | packages/python3-nethsec/src/nethsec/objects/__init__.py:106-145 | On a good store an expansion raises exactly for a name that does not split into database and id. |
| `ObjectLaws.SetAddressesIff` | packages/python3-nethsec/src/nethsec/objects/__init__.py:106-145 | On every acyclic store an expansion that does not raise holds exactly what the set, or a set below it, has as an address or as the name of a host or user with that address, each once. |
| `ObjectLaws.OwnAddressesIff` | packages/python3-nethsec/src/nethsec/objects/__init__.py:124-132 | A host stands for the address in its option, a user for its VPN address, anything else outside the sets for nothing. |
| `ObjectsConfig.ObjectsConfig.ValidateMembers` | packages/python3-nethsec/src/nethsec/objects/__init__.py:426-440 | Members are accepted if they are addresses, or existing objects that close no loop through a host set. |
| `ObjectsConfig.ObjectsConfig.AddHostSet` | packages/python3-nethsec/src/nethsec/objects/__init__.py:486-512 | Store and outcome of adding a host set. |
| `ObjectsConfig.ObjectsConfig.EditHostSet` | packages/python3-nethsec/src/nethsec/objects/__init__.py:514-538 | Store and outcome of editing a set. |
| `ObjectsConfig.ObjectsConfig.IsUsedObject` | packages/python3-nethsec/src/nethsec/objects/__init__.py:70-104 | An object is used exactly if a rule is bound to it or a set has it as a member. |
| `ObjectsConfig.ObjectsConfig.DeleteSet` | packages/python3-nethsec/src/nethsec/objects/__init__.py:540-558 | A set is deleted exactly if it exists and is not used. |
| `FirewallOrder.MoveAllRealises` | packages/python3-nethsec/src/nethsec/firewall/__init__.py:1683-1688 | After n moves the first n positions hold the first n sections of the target and no section is lost. |
| `FirewallOrder.ReorderRealises` | packages/python3-nethsec/src/nethsec/firewall/__init__.py:1683-1688 | The loop of single moves ends in exactly the target order, for every permutation. |
| `FirewallOrder.TargetIsStablePartition` | packages/python3-nethsec/src/nethsec/firewall/__init__.py:1629-1680 | The target holds every section once, class after class, each class in its old order. |
| `FirewallOrder.ReorderTwice` | packages/python3-nethsec/src/nethsec/firewall/__init__.py:1667-1688 | Reordering realises the target, and reordering again changes nothing. |
| `FirewallLaws.ReorderSorts` | packages/python3-nethsec/src/nethsec/firewall/__init__.py:1646-1688 | Reordering sorts the file: other sections, zones, forwardings, rules without zones, with two zones, with a destination, with a source; within each of these places the order stays. |
| `FirewallRules.OrderRulesExact` | packages/python3-nethsec/src/nethsec/firewall/__init__.py:1031-1077 | Whatever order is given, no section is lost; the file ends up as requested exactly if the order is a permutation of the class, and then every other class keeps its order. |
| `FirewallRules.AddRuleOrder` | packages/python3-nethsec/src/nethsec/firewall/__init__.py:1690-1737 | A new rule ends up first or last in its class, all other rules of the class keep their order, and so does every other class, objects being expanded in between. |
| `FirewallRules.MoveToTop` | packages/python3-nethsec/src/nethsec/firewall/__init__.py:1726-1736 | After the stable reorder the new rule is the last listed one, so dropping the last id drops exactly it. |
| `FirewallLaws.OrderRulesIff` | packages/python3-nethsec/src/nethsec/firewall/__init__.py:1046-1077 | An order is refused exactly if its type is none of input, output and forward or misses a rule with these zones; an order of just these rules is realised and every other place keeps its order. |
| `FirewallLaws.AddRulePlaces` | packages/python3-nethsec/src/nethsec/firewall/__init__.py:1690-1737 | A new rule comes last in the place that its zones give it, or first if that is asked for and it has a zone; the order of all other rules stays. |
| `FirewallExpand.UpdateRuleExpands` | packages/python3-nethsec/src/nethsec/firewall/__init__.py:2070-2109 | For both ends of a rule: addresses of an object with any, an ipset and no addresses for a domain set, no ipset without one; only these three options change. |
| `FirewallExpand.UpdateRuleHolds` | packages/python3-nethsec/src/nethsec/firewall/__init__.py:2070-2109 | Unless it raises, an update puts the addresses of the object in `ns_src` into `src_ip` and those of the one in `ns_dst` into `dest_ip`, deletes the option for a domain set, leaves it alone without an object or an address, and sets `ipset` to the name of the first ipset linked to the domain set with ` src` or ` dst` behind it. |
| `FirewallExpand.ChangesRecorded` | packages/python3-nethsec/src/nethsec/utils/__init__.py:147-170 | Whatever an update changes in a rule is recorded, as written or as erased. |
| `FirewallExpand.UpdateFrames` | packages/python3-nethsec/src/nethsec/firewall/__init__.py:2063-2110 | Every section that is no rule is untouched, and every rule is updated independently of the others. |
| `FirewallExpand.UpdatedRulesExpanded` | packages/python3-nethsec/src/nethsec/firewall/__init__.py:2063-2110 | After a run that did not raise, every rule of the file holds in `src_ip`, `dest_ip` and `ipset` what the objects in `ns_src` and `ns_dst` denote, in the sense of the row above. |
| `FirewallExpand.UpdateOkIff` | packages/python3-nethsec/src/nethsec/firewall/__init__.py:2063-2110 | A run raises exactly if some rule is bound to a list of objects, or to an object other than a domain set whose lookup raises. |
| `FirewallExpand.UpdateTwice` | packages/python3-nethsec/src/nethsec/utils/__init__.py:147-170 | A second update leaves the configuration as it is, and records no change exactly if no rule has domain sets at both ends. |
| `FirewallObjects.RuleHoldsTree` | packages/python3-nethsec/src/nethsec/firewall/__init__.py:2084-2102 | Over every acyclic object store: after a run that did not raise, a rule has the deduplicated reference tree of the object in `ns_src` in `src_ip` and that of the object in `ns_dst` in `dest_ip`, unless it is a domain set; an object without addresses leaves the option alone. |
| `FirewallObjects.UpdateRaisesIff` | packages/python3-nethsec/src/nethsec/firewall/__init__.py:2063-2110 | Over every acyclic object store: a run raises exactly if some rule is bound to a list, or to a name that is malformed or stands above a malformed one. |
| `FirewallConfig.FirewallConfig.SplitFirewallConfig` | packages/python3-nethsec/src/nethsec/firewall/__init__.py:1629-1665 | One pass that appends every section to the list of its class. |
| `FirewallConfig.FirewallConfig.ReorderFirewallConfig` | packages/python3-nethsec/src/nethsec/firewall/__init__.py:1667-1688 | The moves that bring the file into class order. |
| `FirewallConfig.FirewallConfig.OrderRules` | packages/python3-nethsec/src/nethsec/firewall/__init__.py:1031-1077 | Outcome and file order, refused without a change for an unknown type or a missing rule. |
| `FirewallConfig.FirewallConfig.SetIfChanged` | packages/python3-nethsec/src/nethsec/utils/__init__.py:147-170 | A value is written and recorded only if the stored one differs; a stored text equals a list of just it. |
| `FirewallConfig.FirewallConfig.UpdateFirewallRules` | packages/python3-nethsec/src/nethsec/firewall/__init__.py:2063-2110 | The loop over the rules, the changes it records, and where it stops if a lookup raises. |
| `FirewallConfig.FirewallConfig.AddRule` | packages/python3-nethsec/src/nethsec/firewall/__init__.py:1690-1737 | Append, reorder, expand, and order the class once more for the top. |
| `RateLimit.GoodStep` | packages/ns-api-server/files/src/middleware/rate_limit.go:48-72 | Every arrival, decision and cleanup keeps addresses and limiters paired, buckets within bounds, and every request that may still be decided on its address's current limiter. |
| `RateLimit.TokensStep` | packages/ns-api-server/files/src/middleware/rate_limit.go:64-74 | An allowed request costs its address one token; arrivals and evictions change what no address can spend. |
| `RateLimit.EvictionUnobservable` | packages/ns-api-server/files/src/middleware/rate_limit.go:44-86 | For every interleaving of arrivals, decisions and cleanups the decisions equal those of a limiter that never deletes visitors, if the burst is zero or at most the rate times three minutes less the delay between lookup and decision. |
| `RateLimit.EvictionUnobservableIff` | packages/ns-api-server/files/src/middleware/rate_limit.go:31-86 | That condition is exact: without it some run lets the eviction show. |
| `RateLimit.WindowBoundIff` | packages/ns-api-server/files/src/middleware/rate_limit.go:39-44 | In every window of every run one address is allowed at most the burst plus the rate times the length of the window, exactly if the burst is zero or at most the rate times three minutes less the delay. |
| `RateLimitLaws.DecisionIff` | packages/ns-api-server/files/src/middleware/rate_limit.go:39-74 | Under the same condition, and with eviction, every decision is determined by the decisions before it: the request is allowed exactly if, counting it, every window since an earlier decision holds at most the burst plus the rate times its length. |
| `RateLimiter.RateLimiter.Arrive` | packages/ns-api-server/files/src/middleware/rate_limit.go:64-72 | Under the lock: the visitor is found or created and its last-seen time set. |
| `RateLimiter.RateLimiter.Decide` | packages/ns-api-server/files/src/middleware/rate_limit.go:71-74 | Outside the lock: the limiter that was looked up is asked, whether or not its visitor is still in the map. |
| `RateLimiter.RateLimiter.Cleanup` | packages/ns-api-server/files/src/middleware/rate_limit.go:48-58 | Under the lock: exactly the visitors not seen for more than 180 seconds are deleted, the others are kept as they are. |
| `Sanitize.SanitizedIsClean` | packages/ns-api-server/files/src/utils/utils.go:28-42 | Whichever matches the engine prefers, the output holds no text matching either address pattern and nothing unprintable; the second pass makes no match for the first. |
| `Sanitize.SanitizeKeepsExactlyClean` | packages/ns-api-server/files/src/utils/utils.go:28-42 | Text is left alone exactly if it is clean already, so sanitizing twice is sanitizing once. |
| `Sanitize.OnlyMatchesMasked` | packages/ns-api-server/files/src/utils/utils.go:37-42 | A pass replaces matches only: every other character stays in place and order. |
| `Sanitize.PassesInOrder` | packages/ns-api-server/files/src/utils/utils.go:37-42 | IPv6 addresses in what can be printed are masked first, and IPv4 addresses in what that leaves. |
| `Sanitize.PatternsApart` | packages/ns-api-server/files/src/utils/utils.go:22-25 | Matches of both patterns are not empty and share no character with the mask. |
| `Sanitize.AddressesIff` | packages/ns-api-server/files/src/utils/utils.go:22-25 | The patterns match exactly four groups of one to three digits with dots between them, and four to eight groups of one to four hexadecimal digits with one or two colons between them. |
| `Sanitize.LongestFinds` | packages/ns-api-server/files/src/utils/utils.go:22-25 | Taking the longest match at a position is one of the choices the results cover. |
| `Sanitize.GreedyFinds` | packages/ns-api-server/files/src/utils/utils.go:22-25 | Such choices exist for both address patterns. |
| `Multiwan.CascadeClean` | packages/ns-api/files/pre-commit/clean-network.py:49-80 | Without dangling references, repeated members or rules with several policies: no member of the interface is left, no policy is empty or names a lost member, no rule uses a lost policy, and remaining policies keep their remaining members in order. |
| `Multiwan.NoDanglingIff` | packages/ns-api/files/pre-commit/clean-network.py:49-80 | In general the cascade leaves no dangling reference exactly if no policy lists a lost member twice and no rule mixes doomed policies with other uses. |
| `Multiwan.CascadeLeaves` | packages/ns-api/files/pre-commit/clean-network.py:49-80 | The cascade deletes exactly the interface, its members, the policies all of whose members are such and listed once, and the rules all of whose policies are such and listed once; it keeps the order and rewrites nothing but policies, which lose exactly these members. |
| `Multiwan.RemoveEachOfNoDup` | packages/ns-api/files/pre-commit/clean-network.py:62-66 | For a list without repetition removing members one by one keeps the others in order. |
| `CleanNetwork.CompletesIff` | packages/ns-api/files/pre-commit/clean-network.py:27-88 | The hook gets through exactly if every removal names something, at most one names a multi-WAN interface, none names a shaped interface twice, and members have an interface where that matters; it has then done at most one cascade. |
| `NetworkCleaner.NetworkCleaner.DeleteMembers` | packages/ns-api/files/pre-commit/clean-network.py:53-58 | The members of the interface are deleted and listed. |
| `NetworkCleaner.NetworkCleaner.SweepPolicies` | packages/ns-api/files/pre-commit/clean-network.py:60-71 | Policies lose the listed members; an empty one is deleted and listed. |
| `NetworkCleaner.NetworkCleaner.SweepRules` | packages/ns-api/files/pre-commit/clean-network.py:73-80 | A rule all of whose policies went is deleted; any other is not rewritten. |
| `NetworkCleaner.NetworkCleaner.RemoveInterface` | packages/ns-api/files/pre-commit/clean-network.py:36-80 | The whole cascade for one interface, on the sections listed when the hook started. |
| `NetworkCleaner.NetworkCleaner.CleanNetwork` | packages/ns-api/files/pre-commit/clean-network.py:27-88 | The loop over the recorded changes. |

## Left out

- Foreign code: subprocesses other than `uci reorder`, files, network, syslog, HTTP routing, JSON and token
  handling. `Criteria.IpText` stands for Python's `ipaddress` with the laws that its texts of networks parse
  back (`Criteria.LawfulExists` gives an instance); `x/time/rate` is a bucket of real-valued tokens without rounding to nanoseconds.
- UCI's own semantics: types of options read without `list=True`, staging and commit. Reading or deleting a
  section that is gone raises, and deleting an option that is not there has no effect, as the callers assume.
- Texts are sequences of characters, lower-casing is that of ASCII letters, and LDIF values are bytes.
- Criteria.CriteriaMeaning: the engine is taken to report category and protocol names in lower case, as the
  compiler presumes when it lower-cases members; the grammar of the target engine is the small one of
  `Criteria.Read`, in which an unquoted network ends at a blank or a closing parenthesis.
- Criteria.ApplicationCaseMatters: only flows that the engine reports in lower case are compared.
- LDIF change records, the URL branch of attribute lines and the line and byte counters. `is_dn` is an
  abstract predicate, and the parser's generators are read to the end.
- LdifParser.LDIFParser.ParseAll: where a record raises, the model has read the input to its end, while the
  generators stop behind that record.
- LdifWriter.LDIFWriter.Unparse: what is written before a record is refused stays unspecified.
- DpiMigration.MigrationOutcome: fewer than 10^45 exemptions, so that a fallback name with its number fits the
  name limit; the generated rule identifiers are new and distinct.
- DpiConfig.Dpi.MigrateSchema: the state after a failed migration is left open, since the caller discards it.
- DpiFrozenText.FrozenMeaning: the old syntax is the small one of `DpiFrozenText.ReadFrozen`, in which words are taken
  as they are; whether the engine of the new schema reads it so is not part of this model.
- Flowbits.FlowbitResolver.Resolve: which rules are enabled when it raises is left open.
- `dpi-config`, the generator that runs the rules, is not part of this model; only first match is used.
- The DPI vocabulary files are a parameter; rule listings, presentation fields and name resolution are left out.
- SnortParser.ParseRule: of the fields read from options only those that other operations depend on are kept;
  numbers and metadata lists are checked but not stored.
- Objects.StepKeepsGood: the ipset sections that the deletion of a domain set removes from the `dhcp` and
  `firewall` configurations are a change of other configurations; additions and edits of domain sets have no
  members and are left out. References into `dhcp` and `users` may dangle, as those sections are deleted
  without a check.
- ObjectsConfig.ObjectsConfig.IsUsedObject: the list of places of use is left out.
- FirewallConfig.FirewallConfig.AddRule: validation and the assembly of the new section's options happen before
  and give the section as a parameter.
- FirewallConfig.FirewallConfig.OrderRules: the file order that arises from repeated or foreign ids is the
  function `FirewallOrder.MoveAll`, about which only the conservation of sections is proved.
- RateLimit.EvictionUnobservableIff: cleanups may come at any time, not only a minute after one another, so
  the run that shows an eviction has one cleanup, right after the stale time.
- RateLimiter.RateLimiter.Cleanup: the clock is read once per cleanup, and a visitor is a value in the map, as
  no other code holds a reference to it. The mutex is modelled by making each locked region one step.
- Sanitize.SanitizedIsClean: invalid UTF-8 is left out, and which runes are printable is a parameter.
- NetworkCleaner.NetworkCleaner.CleanNetwork: what was staged before an exception stays unspecified.
- Users, multi-WAN and OpenVPN editing, inventory, reverse proxy, IPsec, connection tracking, update scripts and
  format checks of names, ports and addresses would only add easy or finite claims.
