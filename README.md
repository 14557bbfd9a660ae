# vyerwall-gui configuration reconciliation, modelled in Dafny

vyerwall-gui is a web front end for a VyOS-style router. Its Flask handlers read the device's
hierarchical configuration tree, turn it into typed records (firewall rules, NAT rules, zones,
firewall groups, static routes, DHCP scopes, interfaces), and turn edits back into ordered
batches of `set` and `delete` paths that are sent to the device in one request. Its browser
scripts keep a staged rule order that the user can move, discard or save.

This project models that reconciliation core:

- **The configuration tree** (`tree.dfy`, module `ConfigTree`): a node is a leaf, an ordered map,
  a list or nothing. `ensure_mapping`/`ensure_dict`, `_merge_container`, leaf and address
  extraction, and flattening back to paths (`paths.dfy`, `firewall_rules.dfy`, `iface_utils.dfy`).
  Maps are ordered pair sequences, because "later key wins" and "first match" depend on order.
- **The device** (`device.dfy`): an abstract store of configuration paths, without the
  device's schema, so a set never replaces the value of a single-valued leaf. A batch is classified the way
  `configure_multiple_op` does it: an empty batch makes no call, then the error field, then the
  status. A response is a parameter, so every handler is a function of its inputs and the
  responses it receives.
- **Command builders and diffs**: firewall rules (`firewall_rules.dfy`, `firewall_views.dfy`),
  NAT (`nat_views.dfy`, `managed_nat.dfy`), zones and zone-pair firewalls (`zones.dfy`,
  `zone_firewall.dfy`, `zone_views.dfy`, `zone_matrix.dfy`), firewall groups (`groups.dfy`),
  static routes (`routes.dfy`), DHCP scopes, global settings and seed paths (`dhcp_utils.dfy`,
  `dhcp_scope.dfy`, `dhcp_service.dfy`, `dhcp_paths.dfy`, `dhcp_lookup.dfy`), and interfaces
  (`iface_detail.dfy`, `iface_views.dfy`, `iface_firewall.dfy`).
- **Renumbering**: the four reorder schemes are kept apart. The firewall reorder reuses the
  existing numbers. Compaction restarts at the old minimum and rewrites every rule. The NAT page
  renumbers to 100+i. The managed-NAT reorder moves only the rules whose number changes.
- **Validators and parsers**: IPv4 CIDR notation and prefix alignment (`ipv4.dfy`, following
  section 3.1 of RFC 4632), group members (labels capped at 63 characters as in section 2.3.4 of
  RFC 1035), routes, the `ip -s link` detail parser and the lease table.
- **Browser staging** (`js_firewall.dfy`, `reorder.dfy`, `firewall_editor.dfy`, `nat_staging.dfy`):
  the firewall controller's `rules`/`rulesBaseline`/`orderDirty` state, and the NAT page's
  pending/original/dirty state with the rows each table shows. Both are classes whose methods
  change their fields in place.

Older copies of several files (`interfaces/*`, `dhcp/*`, `static/js/...`) share a module with
their newer counterparts. Where the two differ, there are two functions and a lemma relating them.

Shared helpers: `wrappers.dfy` (Option, Result), `text.dfy` (strip, split, integer text),
`numbers.dfy` (max, sorted numbers), `sorting.dfy` (an insertion sort by key).

## Model

| member | source | states |
|---|---|---|
| Device.Classify | app/modules/interfaces/device.py:14-19 | a call succeeds exactly when the response carries no error text and status 200; an error text wins over the status and gives the "Failed to apply/delete configuration for" message, otherwise a non-200 status gives "Device returned status … for …" |
| Device.ConfigureSet | app/modules/interfaces/device.py:8-19 | an empty batch succeeds without reaching the device; any other batch succeeds exactly when the device answers without error and with status 200; likewise the copy at interfaces/device.py:8-19 (the older copy behaves the same: an empty batch is a success without a call) |
| Device.ConfigureDelete | app/modules/interfaces/device.py:22-33 | as configure_set, with the delete wording of the error message; likewise the copy at interfaces/device.py:22-33 (the older copy of configure_delete behaves the same) |
| Device.ConfigureMultiple | app/modules/interfaces/device.py:36-57 | one call for a mixed batch; empty means success without a call; the error is worded as for configure_set |
| Device.DeletesThenSetsOrdered | app/modules/firewall_groups/views.py:263-267 | a batch built as the deletes followed by the sets has every delete before every set |
| Device.DeletesThenSets | app/modules/firewall_groups/views.py:271-282 | why the handlers put deletes first: applying the deletes and then the sets leaves exactly the part of the store outside the deleted paths plus every path set, in the path-set store (no leaf replacement) |
| Device.SetThenDeleteLoses | app/modules/firewall_groups/views.py:271-282 | the other order would lose a set path lying below a deleted one |
| Device.DeleteUndoesSet | app/modules/firewall_groups/views.py:271-282 | deleting a path just set restores a store that held nothing below it |
| Paths.DedupeCommands | app/modules/firewall/rules/utils.py:274-283 | the seen-set loop returns exactly the specification Dedupe: each command kept once, at its first occurrence; likewise the copy at app/modules/interfaces/views.py:48-57 (`_dedupe` is the same loop); likewise the copy at interfaces/views.py:46-55 (the older `_dedupe` is the same loop); likewise the copy at dhcp/utils.py:29-38 (`dedupe_paths` is the same loop) |
| Paths.Dedupe | app/modules/firewall/rules/utils.py:274-283 | the result has no duplicates and holds exactly the commands of the input |
| Paths.DedupeFirstOccurrenceOrder | app/modules/firewall/rules/utils.py:274-283 | kept commands appear in the order of their first occurrence in the input |
| Paths.DedupeOfDistinct | app/modules/firewall/rules/utils.py:274-283 | a batch without duplicates is returned unchanged |
| Paths.DedupeIdempotent | app/modules/firewall/rules/utils.py:274-283 | de-duplicating twice is the same as once |
| Paths.DedupeKeepsHead | app/modules/firewall/rules/utils.py:274-283 | the first command of a non-empty batch stays first |
| ConfigTree.Lookup | app/modules/firewall/rules/utils.py:7-17 | `dict.get` finds a value exactly when the key is present |
| ConfigTree.MapPut | app/modules/firewall/rules/utils.py:13-15 | dict assignment: an existing key keeps its position, a new key goes last |
| ConfigTree.MapPutLookup | app/modules/firewall/rules/utils.py:13-15 | after `d[k] = v`, `d[k]` is v and every other key keeps its value |
| ConfigTree.MapPutUnique | app/modules/firewall/rules/utils.py:13-15 | assignment keeps the keys of a dict unique |
| ConfigTree.Update | app/modules/firewall/rules/utils.py:15 | `dict.update(src)` puts every pair of src in order |
| ConfigTree.UpdateLookup | app/modules/firewall/rules/utils.py:15 | after `update`, keys of src map to their value in src and other keys are untouched |
| ConfigTree.MergedDicts | app/modules/firewall/rules/utils.py:12-16 | the merge of a list's dict entries is a dict: its keys are unique |
| ConfigTree.EnsureMapping | app/modules/firewall/rules/utils.py:7-17 | the update loop computes the merge of the list's dict entries; a dict is returned as is; anything else gives the empty dict; likewise the copy at dhcp/utils.py:7-16 (`ensure_dict` is the same function) |
| ConfigTree.MergeLaterWins | app/modules/firewall/rules/utils.py:12-16 | merging keeps, for every key, the value of the last dict holding it, and exactly the keys found in some dict entry |
| ConfigTree.EnsureList | dhcp/utils.py:19-26 | null is the empty list, a list is copied, a dict gives its keys, any other value is a one-item list |
| ConfigTree.StripOrNone | dhcp/utils.py:41-44 | null stays null; anything else becomes its text with surrounding whitespace removed |
| FirewallRules.FlattenValueEmptyIff | app/modules/firewall/rules/utils.py:20-39 | flatten_value renders a value as the empty string exactly when no leaf below it holds text |
| FirewallRules.DynamicGroupAddress | app/modules/firewall/rules/utils.py:55-70 | a dynamic-group address is found only under `add-address-to-group` of a dict block and is rendered as `[group:dynamic-group:NAME]` |
| FirewallRules.FirstGroup | app/modules/firewall/rules/utils.py:73-93 | the group kind picked is the first of the listed kinds whose value is truthy, and none is picked only when every kind is falsy |
| FirewallRules.ExtractRulePorts | app/modules/firewall/rules/utils.py:42-117 | a non-dict block gives ("", ""); a dynamic-group address wins with an empty port; otherwise the first present group kind gives `[group:KIND:NAME]` and, without one, the address is the flattened `address` value, as it is when `group` is not a dict; with a group dict a truthy `port-group` gives the port `[group:port-group:NAME]`, else the flattened `port` or `port-name`; without one the port is the flattened `port`, `port-name` or `port-group`, the first truthy |
| FirewallRules.ExtractRuleDescription | app/modules/firewall/rules/utils.py:120-128 | a missing rule or description gives ""; a plain description is returned as it is; a dict gives its first key, or "" when empty; a list gives its string form |
| FirewallRules.RuleNumbers | app/modules/firewall/rules/utils.py:131-139 | the numbers are exactly the rule keys that parse as integers; the others are skipped |
| FirewallRules.ExtractRuleNumbers | app/modules/firewall/rules/utils.py:131-139 | the loop over the rule keys returns exactly RuleNumbers of the `rule` mapping |
| FirewallRules.NextNumber | app/modules/firewall/rules/utils.py:142-146 | without numbers the start is used; otherwise the result is one more than the largest number and is larger than all of them; either way it is not among them |
| FirewallRules.NextRuleNumberIsFresh | app/modules/firewall/rules/utils.py:142-146 | the next rule number never equals the number of an existing rule key |
| FirewallRules.PortTokens | app/modules/firewall/rules/utils.py:149-160 | the kept tokens are never empty, and contain no comma when the pieces had none |
| FirewallRules.SplitPortList | app/modules/firewall/rules/utils.py:149-160 | an empty value gives no tokens; every token is non-empty and free of commas |
| FirewallRules.SplitPortListLoop | app/modules/firewall/rules/utils.py:149-160 | the token loop returns exactly SplitPortList |
| FirewallRules.PortTokensClean | app/modules/firewall/rules/utils.py:149-160 | tokens that are already stripped and unquoted come back unchanged |
| FirewallRules.SplitPortListJoin | app/modules/firewall/rules/utils.py:149-166 | round trip: splitting a comma-joined list of clean port tokens gives the same tokens back, so the `port` command written by `_append_port_commands` reads back as its tokens |
| FirewallRules.RuleBase | app/modules/firewall/rules/utils.py:170 | the rule base path is `firewall ipv4 name NAME rule N` with the number written in decimal |
| FirewallRules.Optional | app/modules/firewall/rules/utils.py:173-183 | a stripped non-empty field gives exactly the command `base FIELD VALUE`; an empty one gives nothing |
| FirewallRules.GroupAddressCommands | app/modules/firewall/rules/utils.py:186-206 | every command lies below the rule base; a kind other than dynamic-group gives exactly `side group KIND NAME` |
| FirewallRules.PortCommands | app/modules/firewall/rules/utils.py:209-216 | outside group mode the side's port command is written exactly when split_port_list yields tokens, and holds them comma-joined |
| FirewallRules.FieldCommands | app/modules/firewall/rules/utils.py:173-183 | the action and protocol commands are present exactly when the stripped values are non-empty |
| FirewallRules.BuildRuleSetCommands | app/modules/firewall/rules/utils.py:169-260 | the batch starts with the rule base, lies entirely below it, holds `disable` exactly when the disabled flag is set, and holds the action and protocol commands exactly when those are non-blank |
| FirewallRules.BuildRuleDeleteCommands | app/modules/firewall/rules/utils.py:263-264 | deleting a rule is the single path of its base |
| FirewallRules.BuildRuleDisablePaths | app/modules/firewall/rules/utils.py:267-271 | disabling sets the `disable` path and deletes nothing; enabling deletes it and sets nothing |
| FirewallRules.FlattenConfigTree | app/modules/firewall/rules/utils.py:286-311 | the recursive walk returns exactly the specification Flatten of the tree; likewise the copy at app/modules/interfaces/utils.py:156-188 (the interfaces copy is the same walk with scalars at the top of a list kept); likewise the copy at interfaces/util.py:156-188 (the older interfaces copy is the same walk) |
| FirewallRules.FlattenEntry | app/modules/firewall/rules/utils.py:289-307 | one dict entry flattens to exactly EntryPaths: an empty dict or None gives the key alone, a scalar gives key and value, list items are flattened one by one |
| FirewallRules.FlattenBelowPrefix | app/modules/firewall/rules/utils.py:286-311 | every flattened path extends the prefix by at least one element |
| FirewallRules.FlattenCopiesAgreeOnDicts | app/modules/interfaces/utils.py:156-188 | on a dict the firewall and interfaces copies give the same paths; they differ only on a bare scalar, which only the firewall copy drops |
| FirewallRules.ScalarDictPaths | app/modules/firewall/rules/utils.py:293-307 | a dict of scalars flattens to one `prefix KEY VALUE` path per entry, in order |
| FirewallRules.ScalarListPaths | app/modules/firewall/rules/utils.py:296-302 | a list of scalars under a key flattens to one `prefix KEY ITEM` path per item, in order |
| FirewallRules.FlattenRuleConfig | app/modules/firewall/rules/utils.py:314-318 | the rule's own path comes first, every path lies below it and no path repeats |
| FirewallViews.ParseBool | app/modules/firewall/rules/views.py:138-146 | None gives the default, a bool is itself, a number is true exactly when non-zero, and a string is true when its stripped lower-case form is one of true, 1, yes, on |
| FirewallViews.ParseBoolAgreesWithDisabledFlag | app/modules/firewall/rules/views.py:138-146 | on values without padding, `_parse_bool` and the disabled test of build_rule_set_commands (rules/utils.py:251-255) agree |
| FirewallViews.PaddedFlagDiffers | app/modules/firewall/rules/views.py:138-146 | they differ on padded text: " on" toggles a rule off but does not mark a created rule disabled, because only `_parse_bool` strips |
| FirewallViews.RuleKeyLeTotal | app/modules/firewall/rules/views.py:65 | the sort key of the rule list (integer for digit keys, the key itself otherwise) is a total preorder whenever the keys are all of one kind |
| FirewallViews.SortRuleEntries | app/modules/firewall/rules/views.py:62-65 | sorting fails (Python's TypeError on comparing int with str) exactly when digit and non-digit keys are mixed; otherwise the result is a permutation of the rule entries, ordered by the key |
| FirewallViews.OrElse | app/modules/firewall/rules/views.py:72-78 | Python `a or b` on strings: the result is empty only if the fallback is |
| FirewallViews.RuleRowOf | app/modules/firewall/rules/views.py:67-81 | a row keeps the rule key as its number; protocol, source and destination are never empty; a rule without protocol shows "any"; the row is disabled exactly when the rule has `disable` |
| FirewallViews.ParseFirewallRules | app/modules/firewall/rules/views.py:62-84 | no rows (the sort raises) exactly when the keys are mixed; otherwise one row per rule, row i built from the i-th sorted rule, and digit rule numbers in ascending numeric order |
| FirewallViews.ParseFirewallMetadata | app/modules/firewall/rules/views.py:43-59 | the default action falls back to "accept", the rule count is the size of the `rule` mapping, `disabled` is the presence of `disable`, and a firewall absent from the zone map has no zone details |
| FirewallViews.CreateProtocol | app/modules/firewall/rules/views.py:233-236 | the protocol is stripped and lower-cased, and a blank one becomes "tcp_udp" |
| FirewallViews.CreateRule | app/modules/firewall/rules/views.py:223-264 | 404 for a missing firewall; a created rule has an action, valid ports for its protocol and a number not yet in use, which is the next rule number unless one was given, in which case it is the given integer; the batch is build_rule_set_commands with the normalised protocol |
| FirewallViews.CreatedPortsHaveProtocol | app/modules/firewall/rules/views.py:238-239 | a created rule that has ports also sets a tcp, udp or tcp_udp protocol |
| FirewallViews.UpdateRule | app/modules/firewall/rules/views.py:269-330 | an update passes only for an existing rule, and its target is the same number or a number not in use |
| FirewallViews.UpdateRuleOutcome | app/modules/firewall/rules/views.py:269-305 | 404 for a missing firewall or rule; the target stays the rule's own number when none is given; a passing update has an action (its own or the existing one) and valid ports for its protocol |
| FirewallViews.UpdateRuleRefusesMissing | app/modules/firewall/rules/views.py:271-276 | 404 for a missing firewall, and for a rule number not in the rule map |
| FirewallViews.UpdateRuleKeepsNumber | app/modules/firewall/rules/views.py:281-289 | without a new number the rule keeps its number |
| FirewallViews.UpdateRuleHasAction | app/modules/firewall/rules/views.py:291-296 | a blank action is replaced by the existing rule's action, and refused when there is none |
| FirewallViews.UpdateRulePortsValid | app/modules/firewall/rules/views.py:298-305 | after taking the existing protocol for a blank one, ports still require tcp, udp or tcp_udp |
| FirewallViews.UpdateRuleBatch | app/modules/firewall/rules/views.py:307-317 | the batch is the delete of the old rule followed by the set commands for the target number |
| FirewallViews.UpdateReplacesRule | app/modules/firewall/rules/views.py:307-322 | applying the batch removes everything below the old rule and then holds exactly the new rule's set paths: the rule is replaced, not merged |
| FirewallViews.RuleRoots | app/modules/firewall/rules/views.py:366 | one delete path per existing rule key, in key order |
| FirewallViews.Recreate | app/modules/firewall/rules/views.py:368-372 | every path flattened from a snapshot at its target number is in the recreate batch |
| FirewallViews.ReorderRules | app/modules/firewall/rules/views.py:335-403 | an empty or missing order is a 400, a missing firewall a 404; an accepted order has the rule map's length and its keys; it is a no-op exactly when it already is the numeric order; otherwise the batch deletes every rule and recreates the i-th ordered rule at the i-th sorted number, and the restore batch recreates every rule at its own number |
| FirewallViews.ReorderIsPermutation | app/modules/firewall/rules/views.py:348-353 | with distinct rule keys, an accepted order is a permutation of them without repetition |
| FirewallViews.ReorderKeepsNumbers | app/modules/firewall/rules/views.py:355-356 | the target numbers are the existing numbers, sorted |
| FirewallViews.ReorderEffect | app/modules/firewall/rules/views.py:362-386 | after the batch every ordered rule's configuration sits at its target number, and nothing else outside the recreated paths was added or kept below an old rule |
| FirewallViews.ReorderRunOf | app/modules/firewall/rules/views.py:335-403 | a request refused before any call is refused with the same status and message |
| FirewallViews.ReorderCallsShape | app/modules/firewall/rules/views.py:386-397 | the reorder batch is sent first; the restore batch is sent as a second call exactly when the first failed, and then the answer is 500 with the first call's error; success makes one call and answers 200 |
| FirewallViews.ReorderRestoreOnlyAfterFailure | app/modules/firewall/rules/views.py:358-403 | an order already in place makes no call; otherwise the restore is sent exactly when the reorder call failed, the failure answers 500 with the reorder's error text, and success never restores |
| FirewallViews.CompactBase | app/modules/firewall/rules/views.py:417-423 | a hint gives max(1, hint); without one the base is the first sorted key as an integer, or 1 when it is not one |
| FirewallViews.CompactTargets | app/modules/firewall/rules/views.py:427-431 | the i-th target is base + i, written in decimal |
| FirewallViews.CompactMapping | app/modules/firewall/rules/views.py:425-431 | the loop maps the i-th sorted rule to base + i and reports a change exactly when some rule moves |
| FirewallViews.MappingColumns | app/modules/firewall/rules/views.py:436-451 | the originals, targets and bodies read back from the mapping are the sorted keys, the compact targets and the rule bodies |
| FirewallViews.CompactCallsShape | app/modules/firewall/rules/views.py:441-457 | the delete goes first; the set is sent only after the delete succeeded; the restore only after the set failed; the whole succeeds exactly when the delete and the set both did |
| FirewallViews.CompactRuleNumbers | app/modules/firewall/rules/views.py:406-457 | the compaction run returns exactly the specification CompactSpec |
| FirewallViews.CompactAllOrNothing | app/modules/firewall/rules/views.py:406-457 | no call when no rule moves; otherwise the first call deletes every rule, the second recreates the sorted rules at base + i, and a third call, made only after a failed set, recreates them at their old numbers |
| FirewallViews.CompactRestoreOnlyAfterFailedSet | app/modules/firewall/rules/views.py:442-455 | at most three calls; the third exactly when the delete succeeded and the set failed; a single call means failure |
| FirewallViews.RecreateNonEmpty | app/modules/firewall/rules/views.py:436-439 | recreating at least one rule sends at least one path |
| FirewallViews.DeleteHint | app/modules/firewall/rules/views.py:470-476 | the hint is the smallest rule number when every key is an integer, and absent when the map is empty or a key is not an integer |
| FirewallViews.DeletingLowestRuleMoves | app/modules/firewall/rules/views.py:470-484 | when the lowest rule is deleted, the remaining rules are renumbered from the hint, so the compaction does move them |
| FirewallViews.DeleteRule | app/modules/firewall/rules/views.py:462-492 | 404 for a missing firewall or rule; otherwise one delete of the rule's path; a failed delete answers 500 without compaction; a successful one is followed by the compaction run from the smallest old number |
| FirewallViews.ToggleRule | app/modules/firewall/rules/views.py:497-532 | 404 for a missing firewall or rule; nothing is sent exactly when the requested state (default: disable) is the current one; disabling sets the `disable` path and enabling deletes it |
| NatViews.GetDict | app/modules/nat/views.py:35 | `d.get(k, {})` followed by `.get`: a missing key gives an empty dictionary, a dictionary is returned as it is, and anything else fails (the call on a non-dict raises) |
| NatViews.NatRoot | app/modules/nat/views.py:145 | a NAT rule path is `nat KIND rule NUMBER` |
| NatViews.GetNextRuleNumber | app/modules/nat/views.py:20-27 | an empty rule map gives 100; the call fails (ValueError) exactly when a key is not an integer; otherwise the result is one more than the largest number, larger than all |
| NatViews.NextRuleNumberIsFresh | app/modules/nat/views.py:20-27 | the next number never parses equal to an existing key |
| NatViews.SourceRowOf | app/modules/nat/views.py:35-45 | a source rule lists when it and its outbound-interface, source and translation values are dictionaries; the row keeps the number and shows the translation address |
| NatViews.DestinationRowOf | app/modules/nat/views.py:48-72 | a truthy redirect shows "redirect" and the redirect port; otherwise the translation address and port; a truthy redirect that is not a dictionary fails |
| NatViews.RowsOf | app/modules/nat/views.py:36-72 | one row per rule, in the rule map's order, each the row of its rule |
| NatViews.CollectRows | app/modules/nat/views.py:36-72 | the collecting loop returns exactly RowsOf |
| NatViews.MissingRowFails | app/modules/nat/views.py:36-72 | one rule whose row cannot be built fails the whole listing |
| NatViews.SortRows | app/modules/nat/views.py:74-75 | sorting fails exactly when a rule number is not an integer; otherwise it is a permutation in ascending numeric order, and rows with the same number keep their input order (a stable sort) |
| NatViews.RearrangedRowsParse | app/modules/nat/views.py:74-75 | every rule number of a rearranged listing still parses |
| NatViews.ParsedNatRules | app/modules/nat/views.py:30-77 | a listing holds exactly the source rows and the destination rows, as a permutation, in ascending numeric order of rule numbers; rows with the same number keep their order in the source rows followed by the destination rows, so a source rule comes before a destination rule of the same number |
| NatViews.ParseNatRules | app/modules/nat/views.py:30-77 | parse_nat_rules as run: the two loops and the sort return exactly ParsedNatRules |
| NatViews.Opt | app/modules/nat/views.py:148-202 | a field is written as one path exactly when its value is non-empty |
| NatViews.SourceFieldPaths | app/modules/nat/views.py:147-157 | the optional description, outbound interface and source address of a source rule lie below its root |
| NatViews.TranslationPaths | app/modules/nat/views.py:190-202 | with redirect only the redirect port may be set; otherwise the translation address and the translation port, each when non-empty |
| NatViews.DestHead | app/modules/nat/views.py:170-188 | the destination fields before the translation never touch `translation` |
| NatViews.DestinationPaths | app/modules/nat/views.py:163-202 | all destination paths lie below the rule root, and include every translation path |
| NatViews.TranslationOnlyFromTail | app/modules/nat/views.py:190-202 | every translation path of a destination rule comes from the translation part |
| NatViews.RedirectOnlyPort | app/modules/nat/views.py:192-195 | under redirect, the only translation path is the redirect port, and only when that port is given |
| NatViews.RedirectPortPresent | app/modules/nat/views.py:192-195 | under redirect, the redirect port is set exactly when given |
| NatViews.NoRedirectNoRedirectPath | app/modules/nat/views.py:196-202 | without redirect, translation paths are only address or port |
| NatViews.NoRedirectAddressAndPort | app/modules/nat/views.py:196-202 | without redirect, the translation address and port are each set exactly when non-empty |
| NatViews.NoRedirectAddress | app/modules/nat/views.py:198-199 | without redirect, the translation address is set exactly when non-empty |
| NatViews.NoRedirectPort | app/modules/nat/views.py:201-202 | without redirect, the translation port is set exactly when non-empty |
| NatViews.PayloadDestFields | app/modules/nat/views.py:191-192 | the redirect mode is chosen exactly when the translation address lower-cased is "redirect" |
| NatViews.SourceCreatePaths | app/modules/nat/views.py:147-161 | a source rule always ends with its translation address, which is "masquerade" when none was given |
| NatViews.RuleValue | app/modules/nat/views.py:141 | the `rule` value of a kind is read as found, of any type, {} when missing; it is a dictionary exactly when the listing reads the same rules; only a non-dictionary section fails (also line 164) |
| NatViews.NextNumberOf | app/modules/nat/views.py:20-27 | a falsy value (missing, empty or null) gives 100 without being looked into; a dictionary gives the next number of its keys; any other value fails on `.keys()` |
| NatViews.CreateNumber | app/modules/nat/views.py:142 | a given rule number is used as it is and the rules are not looked into; otherwise the next number of the rules, which fails exactly when NextNumberOf does (also line 165) |
| NatViews.CreateNatRule | app/modules/nat/views.py:128-217 | a type other than source or destination sends nothing; otherwise the batch sets exactly the payload paths under the chosen number, and it fails exactly when the section of that kind is not a dictionary or the number cannot be chosen |
| NatViews.CreateNumberNeedsRulesOnlyWhenUnnamed | app/modules/nat/views.py:141-142 | a body naming its rule number is built whatever the `rule` value holds; without one, an empty or null `rule` value gives 100 (also line 164-165) |
| NatViews.CreatedSourceTranslates | app/modules/nat/views.py:159-161 | the last path of a created source rule sets its translation address, "masquerade" by default |
| NatViews.CreatedNumberIsFresh | app/modules/nat/views.py:142 | an automatically chosen number is not an existing rule's number (also line 165) |
| NatViews.CreatedRedirectOnlyPort | app/modules/nat/views.py:191-195 | a created redirect rule sets no translation path but the redirect port |
| NatViews.UpdateReplacesRule | app/modules/nat/views.py:357-429 | an update of an unknown type changes nothing; otherwise it deletes the rule's root first and the rule then holds exactly the rebuilt paths |
| NatViews.PathKind | app/modules/nat/views.py:225-228 | reorder_rules treats every type other than "source" as destination |
| NatViews.NeedsReorder | app/modules/nat/views.py:236-242 | renumbering is needed exactly when some sorted number is not 100 plus its position |
| NatViews.TextOf | app/modules/nat/views.py:267-318 | the text of a configuration value is non-empty exactly when the value is truthy |
| NatViews.RecreateSource | app/modules/nat/views.py:264-280 | a source rule is rebuilt below its new root from at most four fields |
| NatViews.ConfigDestFields | app/modules/nat/views.py:304-318 | a stored destination rule takes the redirect branch exactly when its redirect value is truthy |
| NatViews.RecreateRule | app/modules/nat/views.py:261-318 | every rebuilt path lies below the new root |
| NatViews.RecreateAllSome | app/modules/nat/views.py:261-318 | rebuilding all rules succeeds exactly when every rule can be rebuilt |
| NatViews.RecreatedUnderSlots | app/modules/nat/views.py:261-318 | every rebuilt path lies below the root numbered 100 + i of some rule i |
| NatViews.RulesInOrder | app/modules/nat/views.py:248 | the i-th stored rule is the rule numbered by the i-th sorted number |
| NatViews.NumberRoots | app/modules/nat/views.py:253-258 | one delete path per sorted number |
| NatViews.CompactionPlan | app/modules/nat/views.py:220-248 | a renumbering happens only for a non-empty rule map whose sorted numbers are not already 100, 101, ...; it deletes every numbered root |
| NatViews.CompactDenseIsNoOp | app/modules/nat/views.py:236-245 | rules already numbered from 100 without gaps send nothing |
| NatViews.CompactEffect | app/modules/nat/views.py:250-322 | the deletes come first; after the batch the old roots are gone and only the rebuilt paths are added, each below one of the new roots 100 + i |
| NatViews.ReorderRules | app/modules/nat/views.py:220-325 | reorder_rules as run returns exactly the specification CompactNatRules |
| NatViews.DeleteLoop | app/modules/nat/views.py:253-258 | the delete loop returns one root per sorted number |
| NatViews.RecreateLoop | app/modules/nat/views.py:260-318 | the recreate loop returns exactly RecreateAll from 100 |
| NatViews.ClientRulePaths | app/modules/nat/views.py:468-523 | every path built from a client rule lies below its new root |
| NatViews.ClientBatches | app/modules/nat/views.py:468-523 | the i-th client rule is rebuilt below the root numbered 100 + i |
| NatViews.NewRoot | app/modules/nat/views.py:469 | the new root of position i is numbered 100 + i |
| NatViews.KeyRoots | app/modules/nat/views.py:461-465 | one delete per existing rule key, in key order |
| NatViews.ReorderNatRules | app/modules/nat/views.py:433-538 | an unknown type and an empty list are 400s; otherwise the batch deletes every existing rule and then sets the client rules at 100, 101, ...; no check that the client list matches the stored rules |
| NatViews.BuildClientReorder | app/modules/nat/views.py:458-523 | the loops build exactly the deletes of the existing keys followed by the rebuilt client rules |
| NatViews.ClientRecreateInSlots | app/modules/nat/views.py:468-523 | every set path lies below the slot of some client rule |
| NatViews.ReorderNatEffect | app/modules/nat/views.py:458-527 | deletes come first; afterwards no path below an old rule survives unless it is rebuilt, every client rule's paths sit at 100 + its position, and nothing else is added |
| NatViews.DeleteNatRule | app/modules/nat/views.py:330-352 | an unknown type is a 400 and sends nothing; otherwise the rule root is deleted and the renumbering of the remaining rules follows |
| NatViews.DeleteNatRuleEffect | app/modules/nat/views.py:333-341 | after the delete nothing remains below the rule's root; remaining rules already dense from 100 are not renumbered |
| ManagedNat.ExtractManagedIfaceName | app/modules/interfaces/nat.py:54-60 | a name is returned only for a managed rule, as the non-empty rest of its description after the prefix; a managed rule whose description is the bare prefix gives None |
| ManagedNat.ManagedNameOfDescription | app/modules/interfaces/nat.py:42-60 | round trip: a rule described by nat_rule_description(name) is managed and yields the normalised name back (None when that is empty) |
| ManagedNat.ExtractNatOutboundInterface | app/modules/interfaces/nat.py:63-69 | a leaf outbound-interface is returned as it is; a missing one gives None |
| ManagedNat.ExtractNatSourceNetwork | app/modules/interfaces/nat.py:72-78 | a leaf source is returned as it is; a missing one gives None |
| ManagedNat.BuildNatRuleUpdateCommands | app/modules/interfaces/nat.py:93-100 | four paths, all strictly below the rule root |
| ManagedNat.BuildNatRuleCommands | app/modules/interfaces/nat.py:81-90 | the rule root followed by exactly the four update paths |
| ManagedNat.BuiltRuleReadsBack | app/modules/interfaces/nat.py:63-90 | round trip: the rule those commands create reads back its outbound interface and network, is managed, and names the interface it was built for |
| ManagedNat.FindNatRuleForIface | app/modules/interfaces/nat.py:103-128 | a rule described for the interface wins; failing that, the first rule whose source network is the candidate; otherwise none |
| ManagedNat.FindDescribedAt | app/modules/interfaces/nat.py:109-115 | the first rule with the target description is the one returned |
| ManagedNat.FindNetworkAt | app/modules/interfaces/nat.py:117-126 | without a described rule, the first rule with the candidate network is returned |
| ManagedNat.FindNothing | app/modules/interfaces/nat.py:103-128 | without a described rule and without a matching network, nothing is found |
| ManagedNat.FindDescribed | app/modules/interfaces/nat.py:110-115 | the description loop stops at the first rule with the target description |
| ManagedNat.FindNetwork | app/modules/interfaces/nat.py:120-126 | the network loop stops at the first rule with the candidate network |
| ManagedNat.FindNatRuleLoop | app/modules/interfaces/nat.py:103-128 | the two loops return exactly FindNatRuleForIface |
| ManagedNat.NextNatRuleNumber | app/modules/interfaces/nat.py:131-135 | the result is at least the minimum, above every existing number, and, unless it is the minimum, one more than an existing number |
| ManagedNat.AssignmentsCover | app/modules/interfaces/nat.py:138-151 | every interface named by a managed rule has an assignment |
| ManagedNat.AssignmentsLastWins | app/modules/interfaces/nat.py:138-151 | an interface named by several rules is assigned from the last of them |
| ManagedNat.MapNatAssignments | app/modules/interfaces/nat.py:138-151 | the loop returns exactly the specification Assignments |
| ManagedNat.ManagedRules | app/modules/interfaces/nat.py:156-160 | the managed list holds exactly the managed rules |
| ManagedNat.DenseTargets | app/modules/interfaces/nat.py:177 | the i-th target is the minimum rule number plus i |
| ManagedNat.CollectMoves | app/modules/interfaces/nat.py:173-185 | the loop collects exactly the deletes and the flattened sets of the rules that move |
| ManagedNat.ReorderManagedNatRules | app/modules/interfaces/nat.py:154-200 | with at most one managed rule nothing is sent and the result is success |
| ManagedNat.NeedsMove | app/modules/interfaces/nat.py:165-168 | a reorder is needed exactly when some managed rule is not at its target |
| ManagedNat.ApplyMoves | app/modules/interfaces/nat.py:173-200 | the delete and set calls return exactly the specification Renumber |
| ManagedNat.ReorderManagedNatRulesLoop | app/modules/interfaces/nat.py:154-200 | the method as written returns exactly ReorderManagedNatRules |
| ManagedNat.RenumberCalls | app/modules/interfaces/nat.py:187-200 | the delete call goes first; the set call follows only after a successful delete and when there is something to set; success needs both |
| ManagedNat.MovedDeletesSomething | app/modules/interfaces/nat.py:165-180 | when a rule moves, something is deleted |
| ManagedNat.DeletesOnlyMoved | app/modules/interfaces/nat.py:176-180 | exactly the roots of the rules that move are deleted |
| ManagedNat.SetsOnlyAtTargets | app/modules/interfaces/nat.py:181-185 | every set path lies below the target root of a rule that moves |
| ManagedNat.RenumberSpares | app/modules/interfaces/nat.py:173-200 | a rule number that is neither moved from nor moved to is untouched by the calls |
| ManagedNat.SparedRuleUnchanged | app/modules/interfaces/nat.py:187-198 | the paths below an untouched rule are the same before and after the calls |
| ManagedNat.ReorderSparesUnmanagedOutsideRun | app/modules/interfaces/nat.py:154-200 | an unmanaged rule numbered outside the managed target range is untouched |
| ManagedNat.ReorderOverwritesUnmanaged | app/modules/interfaces/nat.py:165-185 | as written: with managed rules at MIN and MIN+2 and an unmanaged one at MIN+1, the reorder succeeds and writes into the unmanaged rule at MIN+1 |
| ManagedNat.ClashReorderCalls | app/modules/interfaces/nat.py:173-198 | in that case the calls are a delete of MIN+2 and a set of its description below MIN+1 |
| ManagedNat.FreeSlots | app/modules/interfaces/nat.py:165-185 | corrected targets: increasing numbers from the minimum that skip every number in use, and equal to MIN+i when no number in use lies in that range |
| ManagedNat.ReorderManagedNatRulesFixed | app/modules/interfaces/nat.py:154-200 | the corrected reorder: with at most one managed rule nothing is sent |
| ManagedNat.FixedReorderSparesUnmanaged | app/modules/interfaces/nat.py:154-200 | the corrected reorder never touches an unmanaged rule |
| ManagedNat.FixedAgreesWithoutClash | app/modules/interfaces/nat.py:154-200 | when no unmanaged number lies in the target range, the corrected reorder sends exactly what the original sends |
| Ipv4.MatchShape | app/modules/interfaces/utils.py:5-7 | a string matches the CIDR pattern's shape only as four dot-separated runs of 1-3 digits, a slash and 1-2 digits |
| Ipv4.MatchShapeSound | app/modules/interfaces/utils.py:5-7 | what the pattern matched is exactly the text it came from |
| Ipv4.MatchShapeComplete | app/modules/interfaces/utils.py:5-7 | every well-shaped text is matched, with the same pieces |
| Ipv4.PyCidrMatch | app/modules/interfaces/utils.py:211-213 | Python's match with `$` also accepts one trailing newline; whatever it accepts is well shaped |
| Ipv4.IsValidCidrOfFormat | app/modules/interfaces/utils.py:206-226 | every well-shaped address with octets up to 255 and prefix up to 32 is valid, with or without a trailing newline |
| Ipv4.IsValidCidrIff | app/modules/interfaces/utils.py:206-226 | is_valid_cidr accepts exactly the well-shaped, in-range addresses, optionally followed by one newline; likewise the copy at interfaces/util.py:206-226 (the older copy of is_valid_cidr accepts the same set) |
| Ipv4.JsAgreesWithoutNewline | static/js/interfaces/utils.js:1-15 | on text not ending in a newline, the browser's isValidIpv4Cidr agrees with the server's is_valid_cidr |
| Ipv4.TrailingNewlineDisagrees | static/js/interfaces/utils.js:1-15 | they disagree on a trailing newline: the server accepts it, the browser refuses it |
| Ipv4.LeadingZerosAccepted | static/js/interfaces/utils.js:1-15 | both accept octets with leading zeros such as 010.0.0.1/24 |
| Ipv4.Pow2 | app/modules/interfaces/utils.py:292 | a power of two is at least 1 |
| Ipv4.AlignmentCheck | app/modules/interfaces/utils.py:283-315 | the check passes exactly when the octet the prefix splits is a multiple of its modulus, and a message is given exactly when it fails |
| Ipv4.OctetValues | app/modules/interfaces/utils.py:283 | the values are the decimal values of the octet texts |
| Ipv4.IsValidNetworkPrefix | app/modules/interfaces/utils.py:229-318 | a message is given exactly when the address is refused |
| Ipv4.NetworkPrefixCases | app/modules/interfaces/utils.py:246-318 | for a valid CIDR text: a trailing newline or a leading-zero octet is refused by the ipaddress parser as an invalid IP address format; otherwise the answer is the alignment check |
| Ipv4.NetworkPrefixValidIff | app/modules/interfaces/utils.py:229-318 | a network prefix is accepted exactly when it is a well-shaped in-range CIDR without leading zeros whose split octet is aligned |
| Ipv4.SuggestedOctets | app/modules/interfaces/utils.py:295-312 | the suggestion has four octets |
| Ipv4.AlignDownBounds | app/modules/interfaces/utils.py:295 | rounding down to the modulus gives a multiple of it no larger than the octet and within one modulus of it |
| Ipv4.SuggestionAccepted | app/modules/interfaces/utils.py:292-313 | the suggested network in a refusal is itself accepted, and its corrected octet is the original rounded down |
| Ipv4.AlignedExample | app/modules/interfaces/utils.py:238 | the docstring's example 10.5.4.1/23 is accepted |
| Ipv4.MisalignedExample | app/modules/interfaces/utils.py:239-240 | 10.5.5.1/23 is refused with the message naming the third octet, the modulus 2 and the suggestion 10.5.4.0/23 (also line 297) |
| Ipv4.ExampleSuggestion | app/modules/interfaces/utils.py:295-296 | the suggestion for 10.5.5.1/23 is 10.5.4.0/23 |
| IfaceUtils.BeforeAt | app/modules/interfaces/utils.py:201-203 | the part before the first '@': a prefix of the name without '@', the whole name when it has none |
| IfaceUtils.NormaliseIfaceName | app/modules/interfaces/utils.py:201-203 | a missing name stays missing; otherwise the result is the name up to its first '@' and contains no '@'; likewise the copy at interfaces/util.py:201-203 (the older copy behaves the same) |
| IfaceUtils.NormaliseIfaceNameIdempotent | app/modules/interfaces/utils.py:201-203 | normalising twice is the same as once |
| IfaceUtils.ReplaceRuns | app/modules/interfaces/utils.py:98 | every run of characters outside letters, digits, '_' and '-' becomes one '-'; the result holds only safe characters and leaves safe text unchanged |
| IfaceUtils.NormaliseSharedName | app/modules/interfaces/utils.py:96-99 | the stripped name, or the fallback when it is blank, with unsafe runs replaced; empty only when both are; likewise the copy at interfaces/util.py:96-99 (the older copy behaves the same) |
| IfaceUtils.NormaliseSharedNameIdempotent | app/modules/interfaces/utils.py:96-99 | normalising a normalised name leaves it unchanged |
| IfaceUtils.ExtractLeafValue | app/modules/interfaces/utils.py:102-129 | None gives None, a string is itself, a dict with exactly one entry always yields a value and any other dict yields None; likewise the copy at interfaces/util.py:102-129 (the older copy behaves the same) |
| IfaceUtils.FirstLeafFromSpec | app/modules/interfaces/utils.py:113-118 | a list yields the value of its first item that has one, and None when no item has |
| IfaceUtils.ExtractAddressValue | app/modules/interfaces/utils.py:36-60 | a falsy value gives None; a string is stripped; a list takes its first item; a dict gives its first key, or the first inner key when the first value is a non-empty dict; likewise the copy at interfaces/util.py:36-60 (the older copy behaves the same) |
| IfaceUtils.AddressStringStable | app/modules/interfaces/utils.py:36-42 | extracting an already extracted address gives it back unchanged |
| IfaceUtils.EthernetOf | app/modules/interfaces/utils.py:17-22 | a non-dict configuration gives nothing; a missing `ethernet` gives an empty mapping |
| IfaceUtils.EntryNames | app/modules/interfaces/utils.py:24-31 | an ethernet entry contributes its own name and PARENT.VLAN for each of its vifs |
| IfaceUtils.ConfiguredNamesSpec | app/modules/interfaces/utils.py:14-33 | a name is configured exactly when some ethernet entry contributes it |
| IfaceUtils.ExtractConfiguredInterfaces | app/modules/interfaces/utils.py:14-33 | the loop returns exactly the configured interface names; likewise the copy at interfaces/util.py:14-33 (the older copy is the same loop) |
| IfaceUtils.EntryOf | app/modules/interfaces/utils.py:73-80 | a non-dict interface body has neither address nor description |
| IfaceUtils.PutVlans | app/modules/interfaces/utils.py:82-91 | the VLAN loop adds exactly one PARENT.VLAN key per vif |
| IfaceUtils.FlattenedCoversConfigured | app/modules/interfaces/utils.py:63-93 | flatten_interface_config has exactly the names extract_configured_interfaces reports |
| IfaceUtils.FlattenInterfaceConfig | app/modules/interfaces/utils.py:63-93 | the loop returns exactly the specification FlattenedInterfaces; likewise the copy at interfaces/util.py:63-93 (the older copy is the same loop) |
| IfaceUtils.PutVlansLoop | app/modules/interfaces/utils.py:82-91 | the inner VLAN loop returns exactly PutVlans |
| IfaceUtils.PutRule | app/modules/interfaces/utils.py:151 | assigning a rule number keeps the keys distinct and replaces any earlier entry with that number |
| IfaceUtils.NormaliseRuleMap | app/modules/interfaces/utils.py:132-153 | the map is sorted by strictly increasing rule number and holds exactly the entries of the integer keys; likewise the copy at interfaces/util.py:132-153 (the older copy behaves the same) |
| IfaceUtils.RuleMapOfSpec | app/modules/interfaces/utils.py:146-151 | a number maps to the contents of the last item with that key; non-integer keys are skipped |
| IfaceUtils.NormaliseRuleMapLoop | app/modules/interfaces/utils.py:132-153 | the loop returns exactly NormaliseRuleMap |
| IfaceUtils.SortedLastIsMax | app/modules/interfaces/utils.py:153 | in the sorted map the last number is the largest |
| IfaceDetail.Put | app/modules/interfaces/views.py:74 | a dict assignment: the key now holds the value, other keys are unchanged, and a new key is added at the end (also line 108) |
| IfaceDetail.ZipDictPairs | app/modules/interfaces/views.py:108-110 | `dict(zip(headers, values))` maps each header to the value at its position, up to the shorter length |
| IfaceDetail.HeaderRun | app/modules/interfaces/views.py:72 | the run of header characters (letters, digits, '.', '-', '@') at the start of a line |
| IfaceDetail.HeaderNameIff | app/modules/interfaces/views.py:72-73 | a line is an interface header exactly when it starts with a non-empty run of header characters followed by ": <", and the name is that run |
| IfaceDetail.ParseInterfaceDetailLoop | app/modules/interfaces/views.py:60-119 | the line loop returns exactly the specification ParseInterfaceDetail; likewise the copy at interfaces/views.py:58-117 (the older copy is the same loop) |
| IfaceDetail.PreambleIgnored | app/modules/interfaces/views.py:69-92 | blank lines and lines before the first header change nothing |
| IfaceDetail.HeaderStartsRecord | app/modules/interfaces/views.py:72-90 | a header line starts a fresh record for its interface and makes it current; other records are unchanged |
| IfaceDetail.TokenAfterFollows | app/modules/interfaces/views.py:85-90 | the mtu or state read is the word following the keyword, and nothing is read when the keyword is absent |
| IfaceDetail.HeaderRecordFields | app/modules/interfaces/views.py:74-90 | a new record has no addresses, MAC or counters; its mtu and state, when present, follow their keywords on the header line |
| IfaceDetail.InetIsAnnotated | app/modules/interfaces/views.py:95-96 | an `inet` line inside an interface is handled by the body step |
| IfaceDetail.AnnotateInet | app/modules/interfaces/views.py:95-96 | an `inet ` line appends its second word to the addresses |
| IfaceDetail.InetAppends | app/modules/interfaces/views.py:95-96 | scanning an `inet ` line appends its second word to the current interface's addresses and keeps the interface current |
| IfaceDetail.AnnotateRx | app/modules/interfaces/views.py:105-108 | a counter line right after `RX:` sets rx to the headers zipped with the values |
| IfaceDetail.RxCountersZipped | app/modules/interfaces/views.py:101-108 | scanning such a line stores the zipped receive counters on the current interface |
| IfaceDetail.StepBases | app/modules/interfaces/views.py:112-115 | one step adds to the base names exactly the base name of a header line, if any |
| IfaceDetail.RunBases | app/modules/interfaces/views.py:112-115 | the base names collected are exactly those of the header lines |
| IfaceDetail.ParsedBases | app/modules/interfaces/views.py:112-115 | the reported base names are exactly the header names that normalise to an `eth` name without a dot |
| IfaceViews.LoadCidrNetwork | app/modules/interfaces/utils.py:191-198 | a network is derived only from a truthy address that parses as an IPv4 interface; "dhcp" never parses |
| IfaceViews.DhcpDoesNotParse | app/modules/interfaces/utils.py:193-194 | "dhcp" in any case gives no network |
| IfaceViews.PrefixValidLoads | app/modules/interfaces/views.py:409-415 | an address that passed the network-prefix check always yields a source network |
| IfaceViews.BasePath | app/modules/interfaces/views.py:318-323 | a plain name gives `interfaces ethernet NAME`; a VLAN name NAME.VID@PARENT gives the parent's vif path |
| IfaceViews.PlanZoneRemovesOnlyWhenLeaving | app/modules/interfaces/views.py:293-363 | a membership is removed only when the interface leaves its initial zone, and then exactly the initial zone's membership path |
| IfaceViews.LegacyZoneCheckAgrees | interfaces/views.py:299-330 | the older copy refuses with its own wording exactly when the interface would leave a zone that has no other member, and otherwise plans the same zone change |
| IfaceViews.ValidateEdit | app/modules/interfaces/views.py:236-268 | every refusal is a 400; an unknown mode is refused; a passing edit has a known mode, address "dhcp" in DHCP mode, a valid CIDR with an aligned prefix in static mode, a usable zone and a source-NAT interface that is empty or starts with "eth" |
| IfaceViews.ValidateEditFixed | app/modules/interfaces/views.py:236-268 | the corrected checks refuse everything the original refuses, and also source NAT outside static mode, before anything is sent (also line 409-411) |
| IfaceViews.HintedRule | app/modules/interfaces/views.py:380-389 | a NAT rule hint is used only when it parses as an integer naming an existing rule |
| IfaceViews.ExistingRule | app/modules/interfaces/views.py:380-404 | a usable hint wins; otherwise a rule found by description or network; the result is always an existing rule |
| IfaceViews.PlanNat | app/modules/interfaces/views.py:406-440 | only source NAT can be refused (400); without source NAT nothing is set and an existing rule is deleted; with it the existing rule is updated or a new one is created at the next number |
| IfaceViews.SendBatch | app/modules/interfaces/views.py:528-544 | the batch is one call appended after the earlier ones; the answer is 200 or 500; a reorder follows only when a NAT rule was deleted |
| IfaceViews.EditBatch | app/modules/interfaces/views.py:377-553 | the batch comes after the earlier calls; a refused NAT plan answers with its refusal after those calls; otherwise 200 or 500 |
| IfaceViews.EditChanges | app/modules/interfaces/views.py:325-553 | the address delete and the zone removal come first; a status other than 200 or 500 is only the NAT plan's refusal |
| IfaceViews.EditAfterChecks | app/modules/interfaces/views.py:236-553 | a refused check sends nothing; leaving a zone empty is refused with the retain message before any call; otherwise the changes are made; no call is made unless the checks passed |
| IfaceViews.InterfacesEdit | app/modules/interfaces/views.py:236-553 | a refused request sends nothing and answers 400; a zone that would lose its last interface is refused before any call; success needs a known mode and a retained zone |
| IfaceViews.ChangesDeleteOnlyPlanned | app/modules/interfaces/views.py:325-375 | the only delete besides the address delete is the planned membership removal |
| IfaceViews.EditRemovesOnlyFromRetainingZone | app/modules/interfaces/views.py:310-315 | whenever the edit removes the interface from a zone, that zone keeps another member (also line 365-367) |
| IfaceViews.MembershipRemoval | app/modules/interfaces/views.py:343-363 | a membership removal names the initial zone and happens only when the interface leaves it |
| IfaceViews.EditOpsShape | app/modules/interfaces/views.py:512-525 | the batch is the deduplicated deletes, then the NAT rule delete, then the deduplicated sets |
| IfaceViews.EditOpsOrder | app/modules/interfaces/views.py:512-525 | all deletes precede all sets; the sets are exactly the set commands and the deletes exactly the DHCP/DNS deletes plus the NAT rule |
| IfaceViews.CollectOperations | app/modules/interfaces/views.py:512-525 | the loops build exactly EditOps |
| IfaceViews.DhcpSourceNatPassesChecks | app/modules/interfaces/views.py:244-268 | a DHCP edit asking for source NAT passes every early check |
| IfaceViews.DhcpSourceNatRefusedAfterChanges | app/modules/interfaces/views.py:333 | as written: such an edit is refused with "Source NAT requires a static address." only after the address has already been deleted (also line 409-411) |
| IfaceViews.FixedNatPlanPasses | app/modules/interfaces/views.py:409-415 | after the corrected checks the NAT plan is never refused |
| IfaceViews.FixedRefusesBeforeChanges | app/modules/interfaces/views.py:236-553 | with the corrected checks every 400 comes before the first call, and a DHCP edit with source NAT sends nothing |
| IfaceViews.CheckAddRequest | app/modules/interfaces/views.py:676-718 | every refusal is a 400; a passing request names a stripped base ethernet interface (no '.', no '@', starts with "eth") with a known mode (static by default), "dhcp" as address in DHCP mode |
| IfaceViews.CheckAddRest | app/modules/interfaces/views.py:715-724 | an interface already configured or an unusable zone is refused; source NAT passes only in static mode |
| IfaceViews.CheckAddPrefix | app/modules/interfaces/views.py:709-713 | the prefix check refuses exactly the static addresses whose network prefix is not valid |
| IfaceViews.CheckAdd | app/modules/interfaces/views.py:676-724 | all checks of add_interface, in order: every refusal is a 400 and a passing interface is new, named like a base ethernet interface, with a known mode |
| IfaceViews.PrefixCheckOnlyNarrows | interfaces/views.py:551-627 | the older add_interface has no prefix check: it accepts everything the newer one does, plus exactly the static addresses with a misaligned prefix |
| IfaceViews.BuildBaseInterfaceCommands | app/modules/interfaces/views.py:556-562 | the base path first, then the description and the address, each exactly when non-empty; likewise the copy at interfaces/views.py:440-447 (the older copy builds the same commands) |
| IfaceViews.AddCommands | app/modules/interfaces/views.py:726-742 | the batch is refused exactly when source NAT is asked for and no network can be derived; otherwise it is deduplicated, starts with the interface path and includes the zone commands |
| IfaceViews.AddInterface | app/modules/interfaces/views.py:676-757 | the set call is made exactly when all checks pass and the batch builds; success needs a clean device answer; a 400 means no call was made |
| IfaceViews.AddNeverLacksNetwork | app/modules/interfaces/views.py:582-588 | with the prefix check in place the "Unable to derive source network" refusal cannot happen (also line 709-716) |
| IfaceFirewall.CollapseDashes | app/modules/interfaces/firewall.py:21 | collapsing runs of '-' keeps only characters of the input and leaves no two dashes adjacent |
| IfaceFirewall.StripDashesKeepsSingle | app/modules/interfaces/firewall.py:21 | stripping leading and trailing dashes keeps a token free of double dashes |
| IfaceFirewall.ReplaceRunsFrom | app/modules/interfaces/firewall.py:20 | replacing runs of characters outside [a-z0-9_-] by '-' adds only dashes and keeps every allowed character |
| IfaceFirewall.CollapseKeeps | app/modules/interfaces/firewall.py:21 | collapsing dashes keeps every character that is not a dash |
| IfaceFirewall.StripDashesKeeps | app/modules/interfaces/firewall.py:21 | stripping dashes keeps every character that is not a dash |
| IfaceFirewall.CleanKeepsWord | app/modules/interfaces/firewall.py:19-21 | every letter, digit or underscore of the value survives, lower-cased, in the cleaned token |
| IfaceFirewall.CleanEmptyIff | app/modules/interfaces/firewall.py:19-22 | the cleaned token is empty exactly when the value holds no letter, digit or underscore |
| IfaceFirewall.CleanChar | app/modules/interfaces/firewall.py:20-21 | every character of a cleaned token is a lower-case letter, a digit, '_' or '-' |
| IfaceFirewall.CleanShape | app/modules/interfaces/firewall.py:19-21 | a non-empty cleaned token neither starts nor ends with '-', has no double dash and holds only token characters |
| IfaceFirewall.CleanOfClean | app/modules/interfaces/firewall.py:19-21 | cleaning an already clean token changes nothing |
| IfaceFirewall.SanitizeToken | app/modules/interfaces/firewall.py:18-28 | the result is always a clean, non-empty token |
| IfaceFirewall.SanitizeTokenSource | app/modules/interfaces/firewall.py:18-28 | the value's cleaned form wins when it has a word character; otherwise the fallback's cleaned form; otherwise "interface" |
| IfaceFirewall.SanitizeTokenIdempotent | app/modules/interfaces/firewall.py:18-28 | sanitizing a sanitized token gives it back, whatever the fallback |
| IfaceFirewall.InterfaceToken | app/modules/interfaces/firewall.py:32 | the interface token is a clean, non-empty token (also line 43) |
| IfaceFirewall.InterfaceTokenIsSanitized | app/modules/interfaces/firewall.py:32 | the interface token is the value sanitized with fallback "interface" (also line 43) |
| IfaceFirewall.SpaceRuns | app/modules/interfaces/firewall.py:35 | replacing whitespace runs by '-' leaves no whitespace |
| IfaceFirewall.KeepSafe | app/modules/interfaces/firewall.py:36 | removing characters outside [A-Za-z0-9_-] leaves only safe characters |
| IfaceFirewall.FirewallName | app/modules/interfaces/firewall.py:31-39 | the name is non-empty and safe; the description's rewritten form when that is non-empty, the interface token otherwise |
| IfaceFirewall.SafeDescriptionIsName | app/modules/interfaces/firewall.py:33-38 | a description already made of safe characters is used unchanged |
| IfaceFirewall.FirewallNameIdempotent | app/modules/interfaces/firewall.py:31-39 | a firewall name, given back as the description, names the same firewall |
| IfaceFirewall.MarkerIff | app/modules/interfaces/firewall.py:42-44 | two interfaces share a description marker exactly when they share an interface token |
| IfaceFirewall.MarkerSplit | app/modules/interfaces/firewall.py:42-44 | the marker is "iface:" followed by the interface token |
| IfaceFirewall.FirstHolding | app/modules/interfaces/firewall.py:60-63 | a list entry is found only in a dictionary that holds the key |
| IfaceFirewall.StatePolicyEntry | app/modules/interfaces/firewall.py:57-64 | the loop returns the dictionary's entry, or the first list item holding the key, or nothing |
| IfaceFirewall.MissingStatePolicyCommands | app/modules/interfaces/firewall.py:67-84 | the loop builds exactly the commands for the expected state policies that do not already hold |
| IfaceFirewall.MissingFromIff | app/modules/interfaces/firewall.py:72-82 | a state-policy command is emitted exactly for an expected (state, action) pair whose action is not already set; at most one per expectation |
| IfaceFirewall.StatePolicyPathInjective | app/modules/interfaces/firewall.py:82 | different (state, action) pairs give different commands |
| IfaceFirewall.MissingFromShape | app/modules/interfaces/firewall.py:82 | every command has the form firewall global-options state-policy STATE action ACTION |
| IfaceFirewall.ExpectedWellFormed | app/modules/interfaces/firewall.py:11-15 | the expected policies name three distinct states |
| IfaceFirewall.PolicyNodeHolds | app/modules/interfaces/firewall.py:72-80 | a configuration written from the expectations satisfies each of them |
| IfaceFirewall.MissingFromNone | app/modules/interfaces/firewall.py:72-84 | when every expected policy holds, no command is emitted |
| IfaceFirewall.PolicyNodeNeedsNothing | app/modules/interfaces/firewall.py:67-84 | a device already configured with the expected state policy needs no fix |
| IfaceFirewall.PrepareFirewallSetup | app/modules/interfaces/firewall.py:107-121 | the name is FirewallName; the commands are the missing state-policy fixes followed by the name, its drop default and its marker description |
| IfaceFirewall.SetupShape | app/modules/interfaces/firewall.py:107-121 | the setup batch is at most three fixes, then exactly the three name commands in order |
| IfaceFirewall.PrepareFirewallTeardown | app/modules/interfaces/firewall.py:128-149 | the name is FirewallName; the commands are the deduplicated name deletes of TeardownCommands |
| IfaceFirewall.CollectMatching | app/modules/interfaces/firewall.py:133-138 | the loop builds the own name's path followed by every configured name that is the own name or carries the marker |
| IfaceFirewall.MatchingIff | app/modules/interfaces/firewall.py:135-138 | a configured name is deleted exactly when it is the firewall's own name or its description equals the marker |
| IfaceFirewall.TeardownContents | app/modules/interfaces/firewall.py:128-149 | the teardown starts with the own name, has no duplicates, and deletes a name exactly when it is the own name or carries the marker |
| IfaceFirewall.TeardownRoots | app/modules/interfaces/firewall.py:133-138 | every teardown command is under firewall ipv4 |
| IfaceFirewall.SetupThenTeardown | app/modules/interfaces/firewall.py:107-153 | after setup then teardown the firewall's own name is gone and every state-policy fix is still in place |
| IfaceFirewall.TeardownClearsName | app/modules/interfaces/firewall.py:128-153 | after the teardown nothing remains under the firewall's name |
| IfaceFirewall.TeardownKeepsFixes | app/modules/interfaces/firewall.py:107-153 | the teardown never removes the state-policy fixes made by the setup |
| DhcpUtils.NonBlank | dhcp/utils.py:53 | keeps exactly the non-empty values, never more than given (also line 64) |
| DhcpUtils.ItemText | dhcp/utils.py:53 | an item's text has no surrounding whitespace |
| DhcpUtils.Texts | dhcp/utils.py:53 | the texts of a list are stripped and non-empty, never more than its items |
| DhcpUtils.TextsMembers | dhcp/utils.py:53 | a text is listed exactly when some item strips to it and it is non-empty |
| DhcpUtils.EntryValues | dhcp/utils.py:56-63 | the values one dictionary entry contributes are stripped |
| DhcpUtils.DictValues | dhcp/utils.py:55-63 | the values of a dictionary-valued option are stripped |
| DhcpUtils.CollectDictValues | dhcp/utils.py:55-63 | the loop collects exactly DictValues, entry after entry |
| DhcpUtils.CollectEntryValues | dhcp/utils.py:57-63 | the loop body adds exactly the entry's values |
| DhcpUtils.ParseOptionValues | dhcp/utils.py:47-65 | the method returns exactly OptionValues |
| DhcpUtils.OptionValuesClean | dhcp/utils.py:47-65 | option values are stripped; a list or dictionary option yields no empty value; a missing key yields nothing |
| DhcpUtils.ListOptionValues | dhcp/utils.py:52-53 | a list-valued option yields exactly the non-blank stripped texts of its items |
| DhcpUtils.DictEntryKeyThenValue | dhcp/utils.py:60-63 | a plain dictionary entry contributes its key, then its value unless that is empty |
| DhcpUtils.EntryLeafValues | dhcp/utils.py:60-63 | a plain entry contributes its stripped key and, when non-empty, its stripped value |
| DhcpUtils.SubOptionValues | dhcp/utils.py:76-83 | each sub-key of a vendor option gives an entry under the option's name |
| DhcpUtils.ListOptionEntries | dhcp/utils.py:84-88 | each non-blank list item gives an entry under the option's name with a non-empty value |
| DhcpUtils.VendorEntries | dhcp/utils.py:72-90 | every vendor option entry is named after a non-blank configured option name |
| DhcpUtils.VendorOptions | dhcp/utils.py:68-91 | every vendor option has a non-empty, stripped name |
| DhcpUtils.HaFrom | dhcp/utils.py:170-173 | a failover field is reported exactly when it is one of the known fields and is configured |
| DhcpUtils.HighAvailability | dhcp/utils.py:164-174 | the same for the failover block; an empty block gives nothing |
| DhcpUtils.Pieces | dhcp/utils.py:199 | splitting the text at line breaks gives at least one piece and no piece holds a line break |
| DhcpUtils.TableLines | dhcp/utils.py:199 | only lines that are not blank are kept |
| DhcpUtils.GapFrom | dhcp/utils.py:212 | the first place at or after k where two whitespace characters start, or the end |
| DhcpUtils.RunEnd | dhcp/utils.py:212 | the end of the whitespace run starting at k |
| DhcpUtils.SplitWide | dhcp/utils.py:212 | splitting at runs of two or more whitespace characters always gives at least one part |
| DhcpUtils.LeaseOf | dhcp/utils.py:215-225 | a lease row's first two columns are its address and MAC address |
| DhcpUtils.FirstHeader | dhcp/utils.py:200-204 | the header is the first line starting with "ip address" in any case, or there is none |
| DhcpUtils.CollectLeases | dhcp/utils.py:208-227 | the row loop returns exactly LeaseRows |
| DhcpUtils.NoHeaderNoLeases | dhcp/utils.py:205-206 | without a header line there are no leases |
| DhcpUtils.LeaseRowsHaveAddress | dhcp/utils.py:209-226 | rows with fewer than two columns are skipped, so every lease has an address |
| DhcpUtils.SplitWideJoin | dhcp/utils.py:212 | cells printed two spaces apart split back into the same cells |
| DhcpUtils.RowNotSeparator | dhcp/utils.py:210 | a printed row of two or more cells is never taken for a dash separator |
| DhcpUtils.LeaseRowRoundTrip | dhcp/utils.py:208-227 | a printed row of two or more cells reads back as exactly one lease with those columns |
| DhcpUtils.NextFreeId | dhcp/utils.py:247-250 | the loop returns the least positive integer not in use |
| DhcpUtils.NextSubnetId | dhcp/utils.py:230-250 | an id exists exactly when the configuration levels are dictionaries and every subnet-id parses; it is then the least positive unused id |
| DhcpUtils.MissingIdIsZero | dhcp/utils.py:243 | a subnet without a subnet-id counts as id 0, which never blocks a positive candidate |
| DhcpUtils.AddressList | dhcp/utils.py:262-264 | a list address is kept; another value is a one-element list exactly when it is truthy |
| DhcpUtils.InterfaceDetails | dhcp/utils.py:253-278 | a listed interface gives its own description and addresses; an unknown name without a '.' gives "" and no addresses |
| DhcpUtils.VlanDetails | dhcp/utils.py:266-273 | a VLAN not listed on its own is read from its parent's vif table |
| DhcpScope.Given | app/modules/dhcp/views.py:30-31 | a field counts exactly when it is present and not blank; its value is then stripped and non-empty (also line 44-45) |
| DhcpScope.ReadValuePaths | app/modules/dhcp/views.py:53-57 | reading a list field's paths back under its key gives exactly the field's non-blank values |
| DhcpScope.ReadOptPath | app/modules/dhcp/views.py:44-46 | an optional field's path reads back its value under its own key only |
| DhcpScope.ScopeBase | app/modules/dhcp/views.py:36 | the scope's base path ends in shared-network-name and the shared network |
| DhcpScope.SubnetPath | app/modules/dhcp/views.py:37 | the subnet path is the base path followed by subnet and the subnet |
| DhcpScope.MappingPathsShape | app/modules/dhcp/views.py:93-122 | every path of a static mapping lies under static-mapping NAME and ends in one field and its value |
| DhcpScope.ReadMappingsPaths | app/modules/dhcp/views.py:93-122 | static mappings are only read back under a static-mapping key |
| DhcpScope.SubnetCommandsBelow | app/modules/dhcp/views.py:44-122 | everything the subnet part sets lies at least two levels below the subnet path |
| DhcpScope.ExpectedListKeys | app/modules/dhcp/views.py:53-64 | the name-server, domain-search and exclude keys read back exactly the given values of their list fields (also line 80-84) |
| DhcpScope.ExpectedScalarKeys | app/modules/dhcp/views.py:44-89 | each scalar option key reads back exactly its own field, when given |
| DhcpScope.ReadSubnetCommands | app/modules/dhcp/views.py:44-122 | every option key of the subnet reads back what the payload expects under it |
| DhcpScope.ScopeCommandsShape | app/modules/dhcp/views.py:36-122 | every set path lies under the shared network: the authoritative flag or a path below the subnet |
| DhcpScope.SetCommands | app/modules/dhcp/views.py:30-34 | the builder fails with "Missing shared network or subnet" exactly when either is blank or missing |
| DhcpScope.SetCommandsRead | app/modules/dhcp/views.py:19-124 | a deep key of the set batch reads back what the payload expects under it |
| DhcpScope.SetCommandsReadBack | app/modules/dhcp/views.py:19-124 | the set batch reads back every option of the payload: router, domain, name servers, search domains, lease, range, excludes, subnet-id |
| DhcpScope.SetCommandsAuthoritative | app/modules/dhcp/views.py:40-41 | the authoritative flag is set exactly when the payload asks for it |
| DhcpScope.AppendGiven | app/modules/dhcp/views.py:44-46 | one append of an optional field adds exactly its path |
| DhcpScope.AppendValues | app/modules/dhcp/views.py:53-57 | the list loop appends exactly the paths of the non-blank entries |
| DhcpScope.AppendFields | app/modules/dhcp/views.py:100-122 | the field appends of a static mapping add exactly its field paths |
| DhcpScope.AppendMapping | app/modules/dhcp/views.py:93-122 | one mapping adds exactly its paths, nothing when its name is blank |
| DhcpScope.AppendMappings | app/modules/dhcp/views.py:92-122 | the mapping loop adds exactly the paths of every mapping in order |
| DhcpScope.AppendSubnet | app/modules/dhcp/views.py:43-122 | the subnet part appends exactly SubnetCommands after what came before |
| DhcpScope.BuildDhcpSetCommands | app/modules/dhcp/views.py:19-124 | the builder returns exactly SetCommands: the error, or the whole desired scope |
| DhcpScope.ReadGone | app/modules/dhcp/views.py:221-225 | a removed value is deleted under its own key when it is not kept |
| DhcpScope.ReadRemoved | app/modules/dhcp/views.py:221-239 | reading the deletes of a list back gives exactly the previous values minus the current ones |
| DhcpScope.RemovedDistinct | app/modules/dhcp/views.py:221-239 | each removed value is deleted once, however often it occurred |
| DhcpScope.ReadStaleMappings | app/modules/dhcp/views.py:205-218 | reading the mapping deletes back gives exactly the mapping names that disappeared |
| DhcpScope.ReadSameScope | app/modules/dhcp/views.py:197-239 | an in-place edit deletes, under each key, exactly what the previous scope had there and the new one lacks |
| DhcpScope.IdentityChangeDeletesOldSubnet | app/modules/dhcp/views.py:189-195 | an edit that moves the scope deletes the old subnet whole, as one path, and nothing else |
| DhcpScope.DeleteCommandsInPlace | app/modules/dhcp/views.py:197-241 | an edit that keeps the shared network and subnet deletes the per-item differences under them |
| DhcpScope.AppendRemoved | app/modules/dhcp/views.py:221-239 | the loop over removed values appends exactly their deletes |
| DhcpScope.AppendStaleMappings | app/modules/dhcp/views.py:216-218 | the loop over previous mappings appends exactly the deletes of the vanished names |
| DhcpScope.BuildSameScopeDeletes | app/modules/dhcp/views.py:197-241 | the in-place deletes are exactly SameScopeDeletes |
| DhcpScope.BuildDeleteCommands | app/modules/dhcp/views.py:173-241 | the method returns exactly DeleteCommands: nothing without a previous scope, the old subnet when moved, the differences otherwise |
| DhcpScope.SameScopeDeletesShape | app/modules/dhcp/views.py:197-239 | every in-place delete is the authoritative flag or one value under static-mapping, exclude, name-server or domain-search |
| DhcpScope.InPlaceListUpdate | app/modules/dhcp/views.py:173-241 | after an in-place edit's deletes and sets, a name server, search domain or exclude is present exactly when the payload gives it, or it was present and the previous scope did not list it (also line 19-124) |
| DhcpScope.AuthoritativeAfter | app/modules/dhcp/views.py:40-41 | when only the flag's own delete reaches it, the flag ends up on exactly when asked for, or already on and untracked (also line 200-202) |
| DhcpScope.SubnetDeleteKeepsFlag | app/modules/dhcp/views.py:189-195 | deleting a subnet never removes the shared network's authoritative flag |
| DhcpScope.AuthoritativeSurvivesSubnetChange | app/modules/dhcp/views.py:189-202 | as written: moving the scope to another subnet while switching authoritative off leaves the flag on |
| DhcpScope.AuthoritativeAfterUpdateFixed | app/modules/dhcp/views.py:173-241 | corrected: after any edit the flag is on exactly when the payload asks for it, or it was on and the previous scope did not have it |
| DhcpScope.DeleteCommandsReachFlag | app/modules/dhcp/views.py:173-241 | the delete diff as written reaches the authoritative flag only by deleting that path, and deletes it exactly when an edit in place switches the flag off, never on a move |
| DhcpScope.DeleteCommandsFixedReachFlag | app/modules/dhcp/views.py:173-241 | corrected: the delete diff reaches the authoritative flag only by deleting that path, and deletes it exactly when the edit switches the flag off, moved or not |
| DhcpScope.RemovedNone | app/modules/dhcp/views.py:221-223 | a list that lost no value produces no deletes |
| DhcpScope.StaleMappingsNone | app/modules/dhcp/views.py:216-218 | mappings that all remain produce no deletes |
| DhcpScope.UnchangedScopeDeletesNothing | app/modules/dhcp/views.py:173-241 | an edit that changes nothing deletes nothing |
| DhcpService.HaCommandsShape | app/modules/dhcp/views.py:146-168 | every failover path is service dhcp-server high-availability FIELD VALUE |
| DhcpService.GlobalSetShape | app/modules/dhcp/views.py:127-170 | the global builder writes only hostfile-update, listen-address or high-availability paths |
| DhcpService.GlobalSetHostfile | app/modules/dhcp/views.py:135-136 | hostfile-update is set exactly when the settings ask for it |
| DhcpService.GlobalSetListen | app/modules/dhcp/views.py:139-143 | the listen addresses read back exactly the given non-blank addresses |
| DhcpService.HaSourceAddress | app/modules/dhcp/views.py:158-160 | the failover source address is "source-address" when given, else "sourceAddress" |
| DhcpService.GlobalDeleteShape | app/modules/dhcp/views.py:244-272 | the global deletes touch only hostfile-update, listen-address or high-availability |
| DhcpService.GlobalDeleteReads | app/modules/dhcp/views.py:255-270 | hostfile-update is deleted exactly when switched off, the failover block exactly when removed, and exactly the listen addresses that disappeared |
| DhcpService.GlobalDeleteNoPrevious | app/modules/dhcp/views.py:250-251 | without previous settings nothing is deleted |
| DhcpService.ValidationError | app/modules/dhcp/views.py:689-716 | a missing payload is refused with "Missing payload"; a payload passes exactly when shared network, subnet, router, domain, lease, both range ends and at least one DNS server are given |
| DhcpService.AnyDnsServer | app/modules/dhcp/views.py:714-716 | "at least one DNS server" holds exactly when some entry is not blank |
| DhcpService.AcceptedPayloadConfigures | app/modules/dhcp/views.py:689-716 | an accepted payload always builds, with a router, domain, lease, range start and stop and a name server in its batch (also line 19-124) |
| DhcpService.FirstTruthy | app/modules/dhcp/views.py:738-743 | the `or` chain picks the first present, non-empty value, and finds one exactly when there is one |
| DhcpService.CreateSubnetId | app/modules/dhcp/views.py:738-743 | a create always ends up with a non-empty subnet id |
| DhcpService.UpdateSubnetId | app/modules/dhcp/views.py:809-815 | an update always ends up with a non-empty subnet id |
| DhcpService.UpdateKeepsSubnetId | app/modules/dhcp/views.py:809-815 | an update whose payload has no id keeps the scope's current one |
| DhcpService.DisablePath | app/modules/dhcp/views.py:833 | the disable flag lies directly below the scope's shared network (also line 837-840) |
| DhcpService.UpdatedScope | app/modules/dhcp/views.py:809-816 | the updated payload differs from the original only in a non-empty subnet id |
| DhcpService.CreatedScope | app/modules/dhcp/views.py:738-744 | the created payload differs from the original only in a non-empty subnet id |
| DhcpService.UpdateBatch | app/modules/dhcp/views.py:788-845 | a payload refused by validation answers 400 with its message; an unconfigured interface is refused with "Use create instead"; otherwise a non-empty batch with every delete before every set, built from the delete diff as the view builds it |
| DhcpService.UpdateOps | app/modules/dhcp/views.py:819-845 | the update batch, with the scope diff exactly as `_build_delete_commands` returns it (a move deletes only the old subnet), is non-empty and puts all deletes first |
| DhcpService.UpdateOpsWith | app/modules/dhcp/views.py:822-845 | for any scope delete list, the global deletes join it, the disable path is deleted when the scope is enabled and set otherwise; the batch is non-empty and puts all deletes first |
| DhcpService.UpdateOpsFixed | app/modules/dhcp/views.py:819-845 | the same update batch over the corrected scope diff, non-empty and deletes first |
| DhcpService.UpdateSetsFlag | app/modules/dhcp/views.py:823-828 | the update's set list holds the shared network's authoritative flag exactly when the payload asks for it (no global path is that flag) |
| DhcpService.UpdateFlagWith | app/modules/dhcp/views.py:822-845 | when the scope deletes reach the flag only by deleting it, after the batch the flag is on exactly when the payload asks for it, or it was on and the scope deletes do not delete it |
| DhcpService.UpdateFlagAsWritten | app/modules/dhcp/views.py:819-845 | after the as-written update the authoritative flag is on exactly when the payload asks for it, or it was on and the previous scope was not authoritative or the scope moved to another shared network or subnet |
| DhcpService.UpdateLeavesFlagOnMove | app/modules/dhcp/views.py:788-845 | an accepted update that moves an authoritative scope to another subnet of its shared network and switches the flag off leaves the flag on the device |
| DhcpService.UpdateFlagFixed | app/modules/dhcp/views.py:819-845 | after the corrected update the authoritative flag is on exactly when the payload asks for it, or it was on and the previous scope was not authoritative, whether or not the scope moved |
| DhcpService.CreateBatch | app/modules/dhcp/views.py:721-760 | refused payloads answer 400; an existing scope is refused with "already exists"; otherwise the batch holds only sets |
| DhcpService.BatchStatus | app/modules/dhcp/views.py:763-770 | an empty batch or a clean device answer passes; a refusal is a 500 carrying the device's message |
| DhcpService.ScopeAvoidsDisable | app/modules/dhcp/views.py:19-124 | the scope builder never writes below the disable flag (also line 754) |
| DhcpService.GlobalAvoidsDisable | app/modules/dhcp/views.py:127-170 | the global builder never writes below the disable flag |
| DhcpService.DisableNotSet | app/modules/dhcp/views.py:747-755 | the scope and global sets never touch the disable flag |
| DhcpService.ToggleBatch | app/modules/dhcp/views.py:835-845 | deleting the flag first or setting it last leaves it present exactly when the scope is disabled, and keeps every set |
| DhcpService.AddBatch | app/modules/dhcp/views.py:749-760 | a batch of sets adds every set and the flag when disabled, and in the path-set store (no leaf replacement) removes nothing |
| DhcpService.UpdateBatchValue | app/modules/dhcp/views.py:799-845 | an accepted update is exactly UpdateOps (the as-written diff) of the updated scope |
| DhcpService.UpdateEffect | app/modules/dhcp/views.py:788-861 | after an accepted update every scope and global set is present and the disable flag is present exactly when the scope is disabled |
| DhcpService.CreateEffect | app/modules/dhcp/views.py:721-776 | after an accepted create every set is present, nothing is lost in the path-set store (no leaf replacement), and the disable flag is present when disabled (or already was) |
| DhcpService.UpdateWritesSubnetId | app/modules/dhcp/views.py:809-820 | the update writes the chosen subnet id under subnet-id |
| DhcpService.DeleteScopePath | app/modules/dhcp/views.py:871-898 | an unconfigured interface is refused with "No DHCP configuration exists"; a blank shared network or subnet with "Invalid configuration state."; otherwise the subnet path of the scope |
| DhcpService.DeleteScopeEffect | app/modules/dhcp/views.py:894-898 | deleting the scope removes exactly what lies below its subnet path |
| DhcpService.SameScopeExtendsLegacy | dhcp/dhcp.py:195-225 | the current in-place diff starts with everything the older one deletes |
| DhcpService.LegacyDeletesPrefix | dhcp/dhcp.py:171-225 | the older delete batch is a prefix of the current one |
| DhcpService.LegacyDeleteReads | dhcp/dhcp.py:195-225 | the older in-place diff deletes only vanished mappings, excludes and the authoritative flag |
| DhcpService.LegacyDeletesInPlace | dhcp/dhcp.py:171-225 | an in-place edit in the older copy deletes exactly its same-scope differences |
| DhcpService.Applied | dhcp/dhcp.py:701-705 | a call the device refused changes nothing; an accepted one applies all its operations (also line 785-789) |
| DhcpService.LegacyStatus | dhcp/dhcp.py:784-789 | the older update fails exactly when the set call is made and returns an error other than "list index out of range"; the message is "Configure set failed: " and the stripped error |
| DhcpService.LegacyApply | dhcp/dhcp.py:773-800 | the calls run in order: one delete per path, one set call, then the disable toggle; status and new state are LegacyStatus and LegacyAfter |
| DhcpService.DeleteEachBounds | dhcp/dhcp.py:774-781 | one delete per path removes at most every path and never adds anything |
| DhcpService.DeleteEachAllOk | dhcp/dhcp.py:774-781 | when every delete succeeds the result is the store without the deleted paths |
| DhcpService.LegacyAllOk | dhcp/dhcp.py:773-800 | with every call accepted, the flag is present exactly when disabled, every set is present, and everything else is what the deletes left plus the sets, in the path-set store (no leaf replacement) |
| DhcpService.LegacyUpdatePlan | dhcp/dhcp.py:729-800 | the older update refuses exactly what the current one refuses, with the same answer; its sets never touch the disable flag |
| DhcpService.LegacyDeletesMissNameServers | dhcp/dhcp.py:195-225 | the older diff never deletes a name server |
| DhcpService.GlobalDeletesMiss | dhcp/dhcp.py:228-260 | the global deletes never reach a scope |
| DhcpService.LegacyKeeps | dhcp/dhcp.py:773-800 | a path no delete reaches survives the older update |
| DhcpService.LegacyUpdateKeepsNameServers | dhcp/dhcp.py:729-800 | an in-place update in the older copy never removes a configured name server |
| DhcpService.LegacyCreatePlan | dhcp/dhcp.py:666-711 | the older create refuses exactly what the current one refuses; it deletes nothing and its sets never include the flag |
| DhcpService.LegacyCreateEffect | dhcp/dhcp.py:699-711 | the older create removes nothing from the path-set store (no leaf replacement); with both calls accepted every set is present and the flag is present when disabled (or already was) |
| DhcpService.PoolNames | dhcp/dhcp.py:608-612 | the pool names are the non-blank shared-network names, lower-cased; none exactly when both are blank |
| DhcpService.KeepInPool | dhcp/dhcp.py:625-629 | keeps exactly the leases with no pool or a pool among the names, never more |
| DhcpService.FilterLeases | dhcp/dhcp.py:624-629 | without pool names every lease is kept; otherwise exactly the leases with no pool or a matching one |
| DhcpService.KeepInPoolAppend | dhcp/dhcp.py:625-629 | the filter works lease by lease |
| DhcpService.KeepInPoolIdempotent | dhcp/dhcp.py:625-629 | filtering twice changes nothing |
| DhcpPaths.AddressValue | interfaces/dhcp.py:18 | four octets give a 32-bit address value |
| DhcpPaths.ParseAddress | interfaces/dhcp.py:18 | a parsed dotted-quad address fits in 32 bits |
| DhcpPaths.ParsePrefix | interfaces/dhcp.py:18 | a parsed prefix length is at most 32 |
| DhcpPaths.ParseInterface | interfaces/dhcp.py:17-20 | a parsed ADDRESS/PREFIX interface has an address below 2^32 and a prefix of at most 32 |
| DhcpPaths.Size | interfaces/dhcp.py:25 | a network holds at least one address |
| DhcpPaths.OctetsInRange | interfaces/dhcp.py:32 | an address value splits into four octets of at most 255 that give it back |
| DhcpPaths.FormatIpShape | interfaces/dhcp.py:32 | a formatted address has no '/' and splits at '.' into its four octet texts |
| DhcpPaths.ParseFormatIp | interfaces/dhcp.py:18 | parsing a formatted address gives it back (also line 32) |
| DhcpPaths.ParseInterfaceText | interfaces/dhcp.py:18 | parsing a formatted ADDRESS/PREFIX gives the interface back |
| DhcpPaths.NetworkBounds | interfaces/dhcp.py:22 | the network address is aligned to the network size, and the address lies between it and the broadcast address |
| DhcpPaths.BuildDhcpPaths | interfaces/dhcp.py:12-47 | building fails only for an interface that parses (the range start past the last address) |
| DhcpPaths.ScopePaths | interfaces/dhcp.py:35-45 | nine paths, the shared network first, the subnet second, every other one below the subnet |
| DhcpPaths.DhcpPathsEmptyIff | interfaces/dhcp.py:14-20 | no paths exactly when no address is given or it does not parse |
| DhcpPaths.DhcpPathsRaiseIff | interfaces/dhcp.py:27 | the builder fails exactly for 255.255.255.255/32, whose range start leaves the address space |
| DhcpPaths.RangeInsideNetwork | interfaces/dhcp.py:23-28 | for a prefix of 30 or less the range lies strictly inside the network, starting 20 addresses in when the network is large enough |
| DhcpPaths.RangeInvertedForTinyNetworks | interfaces/dhcp.py:25-28 | for /31 and /32 the range starts after it stops |
| DhcpPaths.DhcpPathsShape | interfaces/dhcp.py:30-45 | a built batch is exactly the nine scope paths for the parsed network, router address, lease, range and subnet id |
| DhcpPaths.DhcpPathsAreScope | interfaces/dhcp.py:12-47 | the same, for any interface that builds |
| DhcpPaths.ParsedNotEmpty | interfaces/dhcp.py:14 | only a non-empty address can parse |
| DhcpPaths.RouterInSubnet | interfaces/dhcp.py:31-32 | the subnet text parses back as the network, and the router address lies inside it |
| DhcpPaths.BuildDnsPaths | interfaces/dhcp.py:171-189 | DNS forwarding gets a listen address and an allow-from network together, or no commands at all |
| DhcpPaths.DnsPathsIff | interfaces/dhcp.py:173-179 | DNS commands are produced exactly when an address is given and parses |
| DhcpPaths.DnsMatchesDhcp | interfaces/dhcp.py:32 | the DNS listen address is the DHCP router and the allowed network is the DHCP subnet (also line 181-182) |
| DhcpPaths.DnsOf | interfaces/dhcp.py:181-182 | the listen address is the interface's address and the network its network |
| DhcpPaths.CacheCommands | interfaces/dhcp.py:149-168 | the cache-size fix is produced exactly when the cache size is not already "0", and is then the one cache-size path |
| DhcpPaths.CacheCommandsSettle | interfaces/dhcp.py:149-168 | once the cache size is 0 no fix is needed again |
| DhcpPaths.Members | interfaces/dhcp.py:66-71 | a dictionary's values or a list's items, in order |
| DhcpPaths.IdsOf | interfaces/dhcp.py:85-103 | the used ids of one network are exactly the ids its subnets carry |
| DhcpPaths.ExistingIdsFrom | interfaces/dhcp.py:73-103 | the used ids are exactly those of some subnet of some network |
| DhcpPaths.NextSubnetId | interfaces/dhcp.py:60-109 | the result is the least positive id not in use |
| DhcpPaths.DictEncodedId | interfaces/dhcp.py:92-98 | a dictionary-shaped subnet-id counts by its first key |
| DhcpPaths.AnyEnabledSubnet | interfaces/dhcp.py:139-144 | the loop finds exactly whether some subnet is enabled |
| DhcpPaths.HasActiveDhcpScope | interfaces/dhcp.py:112-146 | the loop answers exactly HasActiveScope: some network and some subnet within it both lack a disable flag |
| DhcpPaths.AllDisabledInactive | interfaces/dhcp.py:124-146 | when every network is disabled there is no active scope |
| DhcpLookup.TextOr | app/modules/dhcp/views.py:367-368 | `strip_or_none(v) or fallback`: the fallback, or the stripped non-empty text; a missing value gives the fallback (also line 387-393) |
| DhcpLookup.KeptValues | app/modules/dhcp/views.py:374 | exactly the non-blank stripped values, never more than given (also lines 382, 396) |
| DhcpLookup.ValueList | app/modules/dhcp/views.py:372-376 | a list gives its kept values; another truthy value gives itself stripped; anything else nothing |
| DhcpLookup.RangeBounds | app/modules/dhcp/views.py:401-407 | without a range both bounds are "" |
| DhcpLookup.PresentFields | app/modules/dhcp/views.py:416-427 | a mapping field is shown exactly when its key is configured, with its stripped text or "" |
| DhcpLookup.MappingOfEntry | app/modules/dhcp/views.py:412-427 | a mapping's name is its stripped key; at most the six known fields are shown |
| DhcpLookup.MappingViews | app/modules/dhcp/views.py:411-429 | one view per configured mapping, in order |
| DhcpLookup.SubnetView | app/modules/dhcp/views.py:362-447 | a matched scope is configured, named after its shared network and subnet, with a lease and a domain ("86400" and "vyos.net" by default); enabled exactly when neither level is disabled; authoritative exactly when the shared network says so; the router defaults to the interface address |
| DhcpLookup.DefaultView | app/modules/dhcp/views.py:553-573 | without a match: not configured, not enabled, not authoritative, named after the description or else the interface, with the interface's first subnet, the default lease and domain and no lists |
| DhcpLookup.FindSubnet | app/modules/dhcp/views.py:355-360 | the first subnet of a network that is one of the interface's subnets (any, when it has none), or none |
| DhcpLookup.FindScope | app/modules/dhcp/views.py:349-451 | the first eligible subnet in network order, or none anywhere |
| DhcpLookup.FirstEligibleUnique | app/modules/dhcp/views.py:349-451 | the first match is unique |
| DhcpLookup.NoneEligibleMeansOwnSubnets | app/modules/dhcp/views.py:358 | when nothing matches although some network has a subnet, the interface has subnets of its own |
| DhcpLookup.ReadStaticMappings | app/modules/dhcp/views.py:411-429 | the loop reads exactly MappingViews |
| DhcpLookup.FindNamed | app/modules/dhcp/views.py:459-551 | the first shared network named like the interface or description, ignoring case, that has a subnet, or none |
| DhcpLookup.GetDhcpScope | app/modules/dhcp/views.py:343-573 | configured exactly when a subnet or a named network matches; the first subnet match wins; otherwise the first subnet of the first named network; otherwise the defaults |
| DhcpLookup.MatchedView | app/modules/dhcp/views.py:362-447 | the view of one subnet, its mappings read by the loop |
| DhcpLookup.NamedScopeShown | app/modules/dhcp/views.py:455-551 | a scope filed under the description's name is shown, configured and with its own subnet, even when that subnet is not one of the interface's |
| Zones.CollapseDashes | interfaces/zone.py:88 | collapsing dash runs leaves no double dash, keeps the first character and only characters of the input, and changes nothing without double dashes |
| Zones.StripDashesKeepsNoDoubleDash | interfaces/zone.py:88 | stripping outer dashes keeps a text free of double dashes |
| Zones.UpperOfSafe | interfaces/zone.py:87-89 | upper-casing safe characters gives only zone-name characters (A-Z, 0-9, '_', '-') |
| Zones.SanitiseZoneName | interfaces/zone.py:84-89 | a sanitised name has only zone-name characters, no double dash, no outer dash, and is empty for an empty name |
| Zones.SanitiseFixesClean | interfaces/zone.py:84-89 | a name that is already clean is kept as it is |
| Zones.SanitiseZoneNameIdempotent | interfaces/zone.py:84-89 | sanitising twice is sanitising once |
| Zones.PairNameChars | interfaces/zone.py:123-126 | the pair name is made of zone-name characters and is both sanitised names joined by one '-' |
| Zones.PairNameOfSanitised | interfaces/zone.py:123-126 | sanitising the zones first does not change the pair name |
| Zones.PairNamesCollide | interfaces/zone.py:123-126 | different zone pairs can share a firewall name: A-B to C and A to B-C both give A-B-C |
| Zones.PairNameOfClean | interfaces/zone.py:123-126 | for clean zone names the pair name is SOURCE-DESTINATION |
| Zones.BuildZoneDefinitionCommands | interfaces/zone.py:92-104 | nothing for a name that sanitises to empty or already exists; otherwise the zone root first and default-action drop last |
| Zones.ZoneDefinition | interfaces/zone.py:100-104 | every path lies under the zone; local-zone is added exactly for LOCAL |
| Zones.IfaceKey | interfaces/zone.py:76 | the lookup key is empty exactly for an empty name; a key containing '@' is the name itself (also line 109) |
| Zones.IfaceKeyIdempotent | interfaces/zone.py:76 | normalising a key again changes nothing (also line 109) |
| Zones.BuildZoneMembershipCommands | interfaces/zone.py:107-112 | nothing when the zone sanitises to empty or the interface is empty; otherwise the one member path |
| Zones.BuildZoneMembershipDelete | interfaces/zone.py:115-120 | the delete names the same path as the membership command |
| Zones.BuildZoneBindingCommands | interfaces/zone.py:129-134 | nothing when a zone sanitises to empty or the firewall name is empty; otherwise one path under the destination zone |
| Zones.ZoneConfigOf | interfaces/zone.py:23-32 | the zone table is the merged result's "zone" entry when that is a dictionary or list, otherwise the merged result |
| Zones.EntryNamesOfList | interfaces/zone.py:43-47 | a list of plain names yields exactly those names |
| Zones.MembersOfList | interfaces/zone.py:50-52 | a list member block yields the members of each element |
| Zones.MemberEncodingsAgree | interfaces/zone.py:35-55 | a dictionary, a list of names and a list of one-key dictionaries all give the same member set |
| Zones.ZoneMembership | interfaces/zone.py:66-71 | one entry per zone whose configuration is a dictionary, never more than there are zones |
| Zones.MapZoneMembers | interfaces/zone.py:64-72 | the loop builds exactly the membership map; a zone is in it exactly when its configuration is a dictionary |
| Zones.ZoneHolding | interfaces/zone.py:78-81 | the first zone in order whose members hold the key, and one is found exactly when some zone holds it |
| Zones.FindZoneForInterface | interfaces/zone.py:75-81 | the loop finds exactly the first zone holding the normalised interface name |
| Zones.ListZones | interfaces/zone.py:58-61 | the zone names, each exactly once as configured, ordered case-insensitively; names equal after lower-casing keep their configuration order |
| ZoneFirewall.SortedSet | app/modules/firewall/zone/utils.py:91 | `sorted(set(...))`: exactly the given names, each once, in strictly increasing order (also line 108) |
| ZoneFirewall.NameRecordsSpec | app/modules/firewall/zone/utils.py:36-45 | every record maps a non-blank stripped firewall name to the zone pair, and every non-blank name is recorded |
| ZoneFirewall.PutAllSpec | app/modules/firewall/zone/utils.py:41 | the map holds exactly the recorded names, each with one of its records |
| ZoneFirewall.RecordFirewall | app/modules/firewall/zone/utils.py:36-45 | the loop adds exactly the records of the names, later ones overwriting earlier ones |
| ZoneFirewall.RecordFrom | app/modules/firewall/zone/utils.py:53-60 | the loop over source zones adds exactly their records, or fails where the source fails |
| ZoneFirewall.RecordIntra | app/modules/firewall/zone/utils.py:62-66 | intra-zone firewalls are recorded for the zone to itself, only when names are given |
| ZoneFirewall.BuildZoneMap | app/modules/firewall/zone/utils.py:13-68 | the loops build exactly ZoneMapOf |
| ZoneFirewall.ZoneMapWellFormed | app/modules/firewall/zone/utils.py:41-45 | every entry maps a name to sanitised, non-empty source and destination zones and the label "SOURCE -> DESTINATION" |
| ZoneFirewall.FromFirewallRecorded | app/modules/firewall/zone/utils.py:47-60 | every non-blank firewall name bound from one zone to another appears in the map |
| ZoneFirewall.IntraFirewallRecorded | app/modules/firewall/zone/utils.py:62-66 | every non-blank intra-zone firewall name is recorded for the zone to itself |
| ZoneFirewall.ListUnassignedInterfaces | app/modules/firewall/zone/utils.py:71-108 | nothing without a device; otherwise distinct names in ascending order |
| ZoneFirewall.VlanCandidatesSpec | app/modules/firewall/zone/utils.py:100-106 | a VLAN name BASE.ID is offered exactly when it is unclaimed |
| ZoneFirewall.CandidatesSpec | app/modules/firewall/zone/utils.py:92-106 | a name is offered exactly when some ethernet entry offers it and no zone claims it |
| ZoneFirewall.UnassignedSpec | app/modules/firewall/zone/utils.py:71-108 | a name is listed exactly when it is an ethernet interface or one of its VLANs that no zone claims, compared case-insensitively |
| ZoneFirewall.BuildFirewallSeedCommands | app/modules/firewall/zone/utils.py:111-119 | the firewall root and its drop default first; every path under the firewall; rule 10 and its accept action exactly when seeding; no duplicates |
| ZoneViews.SanitisedNamesSpec | app/modules/firewall/zone/views.py:34-36 | a zone name is listed exactly when it is the non-empty sanitised form of a configured zone |
| ZoneViews.SortedZoneNames | app/modules/firewall/zone/views.py:34-36 | `sorted({...})`: exactly the non-empty sanitised zone names, each once, in strictly increasing order |
| ZoneViews.SortedZoneNamesSanitised | app/modules/firewall/zone/views.py:34-36 | every listed zone name is already sanitised, so sanitising it again changes nothing |
| ZoneViews.OtherZones | app/modules/firewall/zone/views.py:156 | the other zones are exactly the listed names except the zone itself, still without duplicates (also line 218) |
| ZoneViews.LowerTableSpec | app/modules/firewall/zone/views.py:122 | the lower-case lookup has a key exactly when some available interface lowers to it, and maps it to the last such interface |
| ZoneViews.NormalizeInterfaceCandidate | app/modules/firewall/zone/views.py:119-125 | no candidate exactly when the request is empty or no available interface matches its normalised name ignoring case; otherwise the last available interface that matches |
| ZoneViews.ShouldSeedAccept | app/modules/firewall/zone/views.py:158-163 | a new firewall accepts by default exactly from the new zone to LOCAL or WAN and from LOCAL to the new zone; every other pair drops |
| ZoneViews.SortedMembers | app/modules/firewall/zone/views.py:216 | `sorted(members)` over a set: exactly its members, each once, in strictly increasing order |
| ZoneViews.SeedPair | app/modules/firewall/zone/views.py:171-183 | one loop step seeds the forward and reverse pair firewalls that do not exist yet and binds both directions |
| ZoneViews.SeedPairs | app/modules/firewall/zone/views.py:171-183 | the loop over the other zones does exactly one pair step per zone, in order |
| ZoneViews.SeedSelf | app/modules/firewall/zone/views.py:149-169 | the zone definition, the intra-zone firewall seeded when missing, and the intra-zone commands |
| ZoneViews.BuildCreateCommands | app/modules/firewall/zone/views.py:149-185 | the create batch is the definition, the self seeding, every pair step and the membership command, in that order |
| ZoneViews.CreateZone | app/modules/firewall/zone/views.py:130-200 | the create handler's checks, batch and answer, as a single value determined by the request, the configuration and the device's reply |
| ZoneViews.PairStepsExtends | app/modules/firewall/zone/views.py:171-183 | the pair loop only adds commands and known firewalls, and never touches a firewall that existed before |
| ZoneViews.PairStepsCover | app/modules/firewall/zone/views.py:171-183 | after the loop both pair firewalls of every other zone are known, both bindings are in the batch, and every known firewall existed or was seeded |
| ZoneViews.SelfSeedingKnows | app/modules/firewall/zone/views.py:165-168 | after self seeding the intra-zone firewall is known, and every known firewall existed or was seeded |
| ZoneViews.SelfSeedingDefines | app/modules/firewall/zone/views.py:150 | a new sanitised zone is defined by the batch |
| ZoneViews.CreateSparesExistingFirewalls | app/modules/firewall/zone/views.py:165-183 | the only commands of the create batch under an existing firewall are the intra-zone ones |
| ZoneViews.CreateDefinesZone | app/modules/firewall/zone/views.py:150 | the create batch defines the zone, assigns the interface and has the intra-zone firewall, existing or seeded (also lines 165-169, 185) |
| ZoneViews.CreateSeedsPairs | app/modules/firewall/zone/views.py:171-180 | for every other zone both pair firewalls exist or are seeded by the batch |
| ZoneViews.CreateBindsPairs | app/modules/firewall/zone/views.py:182-183 | for every other zone the batch binds both directions to their pair firewalls |
| ZoneViews.CreateZoneOutcome | app/modules/firewall/zone/views.py:130-200 | 400 exactly when the name is blank, already taken or no interface is available; success exactly when those pass and the device accepts; the sent batch is duplicate-free and holds exactly the built commands |
| ZoneViews.CreateZoneEffect | app/modules/firewall/zone/views.py:130-200 | after a create the device keeps everything in the path-set store (no leaf replacement), holds the zone, its interface, both bindings to every other zone and every pair firewall, and only the intra-zone commands reach an existing firewall |
| ZoneViews.AppendMemberDeletes | app/modules/firewall/zone/views.py:221-222 | the loop appends one membership delete per member, in order |
| ZoneViews.AppendPairDeletes | app/modules/firewall/zone/views.py:233-240 | the loop appends, per other zone, its existing pair firewalls and its binding from the zone |
| ZoneViews.DeleteZone | app/modules/firewall/zone/views.py:205-254 | the delete handler's checks, batch and answer, as a single value determined by the request, the configuration and the device's reply |
| ZoneViews.MemberDeletesUnderZone | app/modules/firewall/zone/views.py:221-222 | every membership delete lies under the zone being deleted |
| ZoneViews.PairDeleteContents | app/modules/firewall/zone/views.py:234-240 | a pair step deletes only that pair's firewalls and binding, always the binding, and each pair firewall that exists |
| ZoneViews.PairDeletesCover | app/modules/firewall/zone/views.py:233-240 | every other zone has its binding and its existing pair firewalls deleted |
| ZoneViews.PairDeletesWithin | app/modules/firewall/zone/views.py:233-240 | the pair loop deletes nothing that does not belong to a pair of the zone with one of the other zones |
| ZoneViews.DeleteCommandsWithin | app/modules/firewall/zone/views.py:215-242 | every delete command targets the zone, one of its pair firewalls or bindings, or an intra-zone command |
| ZoneViews.DeleteCommandsHaveRoot | app/modules/firewall/zone/views.py:242 | the delete batch always removes the zone itself |
| ZoneViews.DeleteCommandsCover | app/modules/firewall/zone/views.py:228-240 | the batch removes the intra-zone firewall when it exists and, for every other zone, its binding and its existing pair firewalls |
| ZoneViews.DeleteZoneOutcome | app/modules/firewall/zone/views.py:205-254 | 400 exactly when the name sanitises to empty, 404 exactly when no configured zone has that name, success exactly when it exists and the device accepts; the batch is duplicate-free and holds exactly the built commands |
| ZoneViews.DeleteZoneEffect | app/modules/firewall/zone/views.py:205-254 | after a delete the device holds a subset: nothing under the zone, its bindings from other zones or its existing pair firewalls; everything else survives |
| ZoneViews.UpdateMembershipOutcome | app/modules/firewall/zone/views.py:259-285 | 400 exactly when zone, interface or action is missing or invalid, or an add names an unavailable interface; success exactly otherwise when the device accepts |
| ZoneViews.UpdateMembershipAdds | app/modules/firewall/zone/views.py:268-272 | a successful add sets exactly the membership of the matched available interface |
| ZoneViews.UpdateMembershipRemoves | app/modules/firewall/zone/views.py:273-274 | a successful remove deletes exactly the membership of the interface as given |
| ZoneViews.MembershipActionWords | app/modules/firewall/zone/views.py:263-264 | "add" and "remove" are the two accepted actions, after lower-casing |
| ZoneViews.MembershipRemoveUndoesAdd | app/modules/firewall/zone/views.py:259-285 | removing the interface an add assigned restores a device that had no such membership |
| ZoneMatrix.RowForAt | app/modules/firewall/zone/views.py:63-78 | the row's cell for each destination is built from that destination's pair firewall name |
| ZoneMatrix.MatrixForAt | app/modules/firewall/zone/views.py:61-82 | the matrix row for each source carries that source and its row of cells |
| ZoneMatrix.BuildCell | app/modules/firewall/zone/views.py:64-78 | the cell for a source and destination, from their pair firewall name |
| ZoneMatrix.BuildRow | app/modules/firewall/zone/views.py:62-78 | the inner loop builds one cell per destination, in order |
| ZoneMatrix.BuildMatrix | app/modules/firewall/zone/views.py:60-82 | the outer loop builds one row per zone name, over all zone names as destinations |
| ZoneMatrix.MatrixCells | app/modules/firewall/zone/views.py:60-82 | cell (i, j) goes from zone i to zone j, names the pair firewall exactly when it exists, links to the rules overview for that name, and carries the zone label exactly when the zone map has one |
| ZoneMatrix.MatrixDiagonal | app/modules/firewall/zone/views.py:68 | over distinct zone names a cell is an intra-zone self cell exactly on the diagonal (also line 76-77) |
| FirewallGroups.Chomp | app/modules/firewall_groups/utils.py:218-352 | the text a `$`-anchored pattern has to cover: the input, or the input without one final newline |
| FirewallGroups.GroupNameIff | app/modules/firewall_groups/utils.py:218-238 | a newline-free name is accepted exactly when it has 1 to 63 characters, starts with a letter and has only letters, digits, `_` and `-` |
| FirewallGroups.GroupNameNewline | app/modules/firewall_groups/utils.py:218-238 | one trailing newline does not change the verdict on a short name, as Python's `$` allows it |
| FirewallGroups.AddressWithDash | app/modules/firewall_groups/utils.py:246-251 | an address containing `-` is accepted exactly when it splits into exactly two parts, whatever they are |
| FirewallGroups.AddressRangeUnchecked | app/modules/firewall_groups/utils.py:246-251 | any two dash-free texts joined by `-` are accepted as a range |
| FirewallGroups.AddressOctetsUnchecked | app/modules/firewall_groups/utils.py:253-259 | any four runs of one to three digits joined by dots are accepted, octets above 255 included |
| FirewallGroups.DomainIff | app/modules/firewall_groups/utils.py:264-275 | a domain is accepted exactly when it is non-empty and, without one final newline, is dot-separated labels ending in an alphabetic top-level label |
| FirewallGroups.DomainSound | app/modules/firewall_groups/utils.py:264-275 | text whose dot-separated parts are valid labels and a top-level label is domain text |
| FirewallGroups.DomainComplete | app/modules/firewall_groups/utils.py:264-275 | valid labels followed by a top-level label, joined by dots, split back into valid parts |
| FirewallGroups.NetworkIff | app/modules/firewall_groups/utils.py:278-292 | a network is accepted exactly when it has exactly one `/` |
| FirewallGroups.MacIff | app/modules/firewall_groups/utils.py:295-311 | a MAC address is accepted exactly when it is non-empty and, without one final newline, is six hex pairs joined by `:` or `-`, or twelve bare hex digits |
| FirewallGroups.MacComplete | app/modules/firewall_groups/utils.py:295-311 | six hex pairs joined by one separator have the separated MAC shape |
| FirewallGroups.PortIff | app/modules/firewall_groups/utils.py:314-338 | a port is accepted exactly when it splits on `-` into exactly two parts (whatever they are), is a number from 1 to 65535, or is a dash-free letter-led service name |
| FirewallGroups.UrlSound | app/modules/firewall_groups/utils.py:341-352 | an accepted URL starts with http:// or https:// and has no whitespace |
| FirewallGroups.MemberUnchecked | app/modules/firewall_groups/utils.py:355-380 | members of the types without a validator are accepted as they are |
| FirewallGroups.EmptyMemberRefused | app/modules/firewall_groups/utils.py:355-380 | every validated type refuses an empty member |
| FirewallGroups.MembersOf | app/modules/firewall_groups/utils.py:123-135 | members come from a dict's keys, a list's items, a single value, or nothing |
| FirewallGroups.GroupOf | app/modules/firewall_groups/utils.py:117-141 | a parsed group carries its name and type, and its member count is the number of its members |
| FirewallGroups.ParseKeys | app/modules/firewall_groups/utils.py:93-148 | the parse has one entry per group type, in the order of GROUP_TYPES |
| FirewallGroups.GroupsListed | app/modules/firewall_groups/utils.py:105-146 | a group of a name is listed exactly when the type's dict has a dict-valued entry of that name |
| FirewallGroups.CollectGroups | app/modules/firewall_groups/utils.py:108-146 | the loop over a type's entries collects exactly that type's groups, in order |
| FirewallGroups.ParseFirewallGroups | app/modules/firewall_groups/utils.py:93-148 | the loop over the group types builds the whole parse |
| FirewallGroups.GroupsForParsed | app/modules/firewall_groups/views.py:172-174 | looking a type up in the parse gives exactly that type's groups |
| FirewallGroups.Labelled | app/modules/firewall_groups/utils.py:162-170 | every summary row carries its group, the type's display name and its icon |
| FirewallGroups.GroupsSummary | app/modules/firewall_groups/utils.py:151-172 | the summary is sorted by type then name and is a permutation of all labelled groups |
| FirewallGroups.StrippedMembersIff | app/modules/firewall_groups/utils.py:196-199 | a member is written exactly when it is the non-empty stripped form of a given member |
| FirewallGroups.BuildGroupSetCommands | app/modules/firewall_groups/utils.py:175-201 | the description path when there is one, then one path per non-blank stripped member |
| FirewallGroups.AppendMemberPaths | app/modules/firewall_groups/utils.py:196-199 | the member loop appends exactly the member paths of the non-blank stripped members |
| FirewallGroups.ReadMemberPaths | app/modules/firewall_groups/utils.py:196-199 | reading members back from their paths gives the members again |
| FirewallGroups.GroupSetCommandsRoundTrip | app/modules/firewall_groups/utils.py:175-201 | the set paths give back exactly the stripped members, all lie under the group's path, and there is one per member plus one for a description |
| FirewallGroups.FirstMemberErrorNone | app/modules/firewall_groups/views.py:163-169 | no member error exactly when every member is valid |
| FirewallGroups.CheckMembers | app/modules/firewall_groups/views.py:163-169 | the member loop reports the first invalid member's error, or none |
| FirewallGroups.CreateGroup | app/modules/firewall_groups/views.py:131-216 | the create handler's checks, batch and answer, as a single value determined by the stripped request, the configuration and the device's reply |
| FirewallGroups.CreateGroupOutcome | app/modules/firewall_groups/views.py:131-209 | the checks run in order: bad type, bad name, no members, a bad member; success needs all of them and a free name, and sends the group's set paths |
| FirewallGroups.CreateConflict | app/modules/firewall_groups/views.py:171-180 | after all checks pass, 409 exactly when the type's dict already has a group of that name |
| FirewallGroups.GroupUpdateBatch | app/modules/firewall_groups/views.py:259-279 | the update batch and the error context, for a rename and for an in-place update |
| FirewallGroups.UpdateGroup | app/modules/firewall_groups/views.py:221-309 | the update handler's checks, batch and answer, as a single value determined by the request and the device's reply |
| FirewallGroups.UpdateGroupOutcome | app/modules/firewall_groups/views.py:221-302 | an unknown type is refused first; a valid in-place update succeeds exactly when the device accepts; the batch deletes the current group first, then sets |
| FirewallGroups.UpdateGroupEffect | app/modules/firewall_groups/views.py:259-282 | the update replaces the group wholesale: below its path exactly the new paths remain, none after a rename, and everything elsewhere is kept |
| FirewallGroups.DeleteGroup | app/modules/firewall_groups/views.py:314-357 | the delete handler's answer, determined by the type and the device's reply |
| FirewallGroups.DeleteGroupOutcome | app/modules/firewall_groups/views.py:314-350 | an unknown type is refused; otherwise success exactly when the device accepts, after which nothing under the group's path remains |
| FirewallGroups.BlankMembersCreateNothing | app/modules/firewall_groups/views.py:155-186 | as written, an interface group with only a blank member is reported created, yet nothing is sent |
| FirewallGroups.BlankMembersUpdateDeletes | app/modules/firewall_groups/views.py:244-282 | as written, the same members in an update delete the group and set nothing |
| FirewallGroups.FixedAgreesWithNonBlank | app/modules/firewall_groups/views.py:155-160 | the corrected create and update agree with the handlers whenever a member survives stripping |
| FirewallGroups.CreateFixedLeavesMember | app/modules/firewall_groups/views.py:131-209 | after a successful corrected create the device holds at least one non-blank member of the group |
| FirewallGroups.UpdateFixedLeavesMember | app/modules/firewall_groups/views.py:221-302 | after a successful corrected update the device holds at least one non-blank member of the target group |
| StaticRoutes.HopRoutes | app/modules/static_routes/utils.py:32-39 | one route per next hop of a destination, in order, each with the destination and the route-level description |
| StaticRoutes.ParseStaticRoutesSpec | app/modules/static_routes/utils.py:19-20 | an empty configuration or one without `route` gives no routes |
| StaticRoutes.RoutesOfMembers | app/modules/static_routes/utils.py:24-39 | a route is listed exactly when some destination entry is a dict with next hops and that hop is one of them |
| StaticRoutes.RoutesOfCount | app/modules/static_routes/utils.py:24-39 | the number of routes is the total number of next hops of the dict-valued destinations |
| StaticRoutes.CollectHops | app/modules/static_routes/utils.py:32-39 | the inner loop appends exactly the routes of one destination's next hops |
| StaticRoutes.ParseStaticRoutes | app/modules/static_routes/utils.py:7-41 | the loop over destinations gives the whole parse, or fails where a next-hop value is not a dict |
| StaticRoutes.BuildRouteSetCommands | app/modules/static_routes/utils.py:44-67 | the next-hop path first, then the route-level description path exactly when a description is given |
| StaticRoutes.BuildRouteDeleteCommands | app/modules/static_routes/utils.py:70-83 | the delete removes only the one next-hop path, not the whole destination |
| StaticRoutes.NextHopPathsApart | app/modules/static_routes/utils.py:59 | one next-hop path lies under another exactly when destination and next hop are the same (also line 83) |
| StaticRoutes.DeleteRemovesOnlyTheHop | app/modules/static_routes/utils.py:70-83 | after the delete that next hop is gone and every path not under it survives |
| StaticRoutes.SetThenDeleteRoute | app/modules/static_routes/utils.py:44-83 | setting a route and deleting it removes the next hop but leaves the route-level description |
| StaticRoutes.QuadShape | app/modules/static_routes/utils.py:117-119 | a dotted quad splits into four runs of one to three digits |
| StaticRoutes.PyQuadMatch | app/modules/static_routes/utils.py:100-101 | the `$`-anchored quad pattern matches four runs of one to three digits, allowing one final newline (also line 117-118) |
| StaticRoutes.ValidateRouteIff | app/modules/static_routes/utils.py:86-127 | a route is valid exactly when the destination is an address with octets up to 255 and a prefix up to 32, and the next hop is a dotted quad with octets up to 255 |
| StaticRoutes.DestinationFirst | app/modules/static_routes/utils.py:99-114 | a bad destination is reported whatever the next hop |
| StaticRoutes.QuadShapeSound | app/modules/static_routes/utils.py:117-119 | a recognised quad is its four parts joined by dots |
| StaticRoutes.QuadShapeComplete | app/modules/static_routes/utils.py:117-119 | four digit runs joined by dots are recognised as exactly those parts |
| StaticRoutes.ValidNextHopIff | app/modules/static_routes/utils.py:116-125 | a next hop is valid exactly when it is a dotted quad with every octet up to 255 |
| StaticRoutes.FindRoute | app/modules/static_routes/views.py:89-94 | the duplicate search finds a route exactly when one with that destination and next hop is listed |
| StaticRoutes.CreateRoute | app/modules/static_routes/views.py:61-131 | the create handler's checks, batch and answer, as a single value determined by the stripped request, the configuration and the device's reply |
| StaticRoutes.CreateRouteOutcome | app/modules/static_routes/views.py:61-124 | blank fields are refused first; success needs a valid route not already listed (409 otherwise), sends sets only, and leaves the next hop and any description on the device |
| StaticRoutes.UpdateBatch | app/modules/static_routes/views.py:161-181 | the update batch and the error context, for a moved route and for a description change |
| StaticRoutes.UpdateRoute | app/modules/static_routes/views.py:136-212 | the update handler's checks, batch and answer, as a single value determined by the stripped request and the device's reply |
| StaticRoutes.UpdateRouteOutcome | app/modules/static_routes/views.py:136-205 | all four fields and a valid new route are needed, and then success exactly when the device accepts; the old route is not looked up |
| StaticRoutes.UpdateOpsEffect | app/modules/static_routes/views.py:161-184 | every delete precedes every set; with the key unchanged only sets; afterwards the new next hop is present and a moved route's old next hop is gone |
| StaticRoutes.DeleteRouteOutcome | app/modules/static_routes/views.py:217-259 | blank fields are refused and the route is not validated; success exactly when the device accepts, after which only that next hop is gone |
| JsFirewall.NormalizeValue | app/static/js/firewall/utils.js:14-16 | null and undefined become the empty text; any other result has no surrounding whitespace |
| JsFirewall.AnyIsAllProtocol | app/static/js/firewall/utils.js:18-26 | every value that reads as "any" also reads as "all protocols" |
| JsFirewall.MissingIsAny | app/static/js/firewall/utils.js:18-26 | a missing value is both "any" and "all protocols" |
| JsFirewall.FormatProtocolDisplay | app/static/js/firewall/utils.js:28-30 | the "All" label exactly for blank, any or all (or a literal "All"); otherwise the trimmed value; never empty |
| JsFirewall.FormatEndpointDisplay | app/static/js/firewall/utils.js:32-34 | the "Any" label exactly for blank or any (or a literal "Any"); otherwise the trimmed value; never empty |
| JsFirewall.FormatPortDisplay | app/static/js/firewall/utils.js:36-38 | ports are displayed exactly as endpoints are |
| JsFirewall.DisplayKeepsText | app/static/js/firewall/utils.js:32-34 | a trimmed value that is not "any" is displayed unchanged |
| JsFirewall.EscapeHtml | app/static/js/firewall/utils.js:40-42 | null and undefined give the empty text; the result has no raw `<`, `>`, `"` or `'` |
| JsFirewall.UnescapeEscape | app/static/js/firewall/utils.js:40-42 | reading the five entities back recovers the original text |
| JsFirewall.EscapeInjective | app/static/js/firewall/utils.js:40-42 | two texts that escape alike are the same text |
| JsFirewall.EscapeTextAmpersands | app/static/js/firewall/utils.js:40-42 | every `&` in escaped text begins one of the five entities |
| JsFirewall.CloneRules | app/static/js/firewall/utils.js:66-68 | null gives no rules; otherwise the same rules in the same order |
| JsFirewall.MapRule | static/js/firewall/controller.js:515-521 | a mapped rule keeps the received fields and has its id equal to its number text |
| JsFirewall.MapRules | static/js/firewall/controller.js:537 | one mapped rule per received rule, in order |
| JsFirewall.MappedIds | static/js/firewall/controller.js:515-521 | the ids of the mapped rules are the number texts of the received rules, in order (also line 537) |
| JsFirewall.JsParseIntNatStr | app/static/js/firewall/controller/forms.js:149 | parseInt reads a decimal numeral back as its number |
| JsFirewall.JsParseIntIgnoresTail | app/static/js/firewall/controller/forms.js:149 | parseInt stops at the first non-digit, so a numeral followed by other text still reads as its number |
| JsFirewall.ParsedNumbers | app/static/js/firewall/controller/forms.js:148-150 | the kept numbers are exactly those parseInt accepts among the rule numbers |
| JsFirewall.ComputeNextRuleNumber | app/static/js/firewall/controller/forms.js:144-147 | no rules at all gives 100 |
| JsFirewall.NextRuleNumberDefault | app/static/js/firewall/controller/forms.js:151-153 | when parseInt accepts none of the rule numbers the next number is 100 |
| JsFirewall.NextRuleNumberAboveAll | app/static/js/firewall/controller/forms.js:144-155 | the next number is above every rule number parseInt accepts |
| JsFirewall.NextRuleNumberSuccessor | app/static/js/firewall/controller/forms.js:154 | when some number parses, the next number is one more than one of them |
| JsFirewall.NextRuleNumberIsMax | app/static/js/firewall/controller/forms.js:154 | when some number parses, the next number is their maximum plus one; likewise the copy at static/js/firewall/controller/forms.js:144-155 (the older editor computes the next number the same way: the maximum parsed number plus one) |
| JsFirewall.NextRuleNumberUnused | app/static/js/firewall/controller/forms.js:144-155 | the next number is not the number of any existing rule |
| JsFirewall.NormalizePortList | app/static/js/firewall/controller/forms.js:363-373 | undefined exactly for a missing or empty value or one whose cleaned tokens are all empty; otherwise the non-empty cleaned tokens joined by commas; likewise the copy at static/js/firewall/controller/forms.js:193-203 (the older editor's port list normalisation, the same function) |
| JsFirewall.PortListCleanKept | app/static/js/firewall/controller/forms.js:363-373 | a list of tokens that are already clean is kept as it is |
| JsFirewall.BlankToUndefined | app/static/js/firewall/controller/forms.js:377-381 | only the empty text becomes undefined; every other value is kept |
| JsFirewall.PortProtocol | app/static/js/firewall/controller/forms.js:394-402 | an allowed protocol is kept lower-cased; anything else becomes the default port protocol |
| JsFirewall.NormalizePayload | app/static/js/firewall/controller/forms.js:375-408 | blank addresses, description and protocol dropped, both port lists normalised, and when manual ports or a port group are given the protocol is one that carries ports; all other fields kept; likewise the copy at static/js/firewall/controller/forms.js:205-230 (the older editor's normalisation, with port groups switched off: only manual ports force the protocol) |
| JsFirewall.GroupOnlyCountsWithGroups | static/js/firewall/controller/forms.js:214 | a selected port group alone forces the protocol in the newer editor but not in the older one |
| JsFirewall.PortRuleProtocol | app/static/js/firewall/controller/forms.js:390-403 | a rule with destination ports is sent with the port protocol derived from its own |
| JsFirewall.SortPairs | static/js/firewall/controller.js:562-570 | the pair sort orders by destination, then name, and is a permutation |
| JsFirewall.MapPairs | static/js/firewall/controller.js:1476-1479 | each listed pair keeps its name and has its destination upper-cased |
| JsFirewall.NormalizePairs | static/js/firewall/controller.js:1476-1489 | a zone's pair list is the mapped pairs, sorted by destination then name, a permutation of them |
| JsFirewall.NormalizePairsKeeps | static/js/firewall/controller.js:1476-1489 | every listed pair is kept |
| JsFirewall.Without | static/js/firewall/controller.js:550 | the list without the pairs of that name, and nothing else removed |
| JsFirewall.PlacedList | static/js/firewall/controller.js:553-571 | the source zone's list is its other pairs plus the placed one, sorted |
| JsFirewall.PlacePair | static/js/firewall/controller.js:544-572 | every zone keeps its list, the source zone is added if missing, and the source zone's list is the placed list |
| JsFirewall.PlacePairOthers | static/js/firewall/controller.js:545-551 | every other zone only loses the pairs of that name |
| JsFirewall.PlacePairListsOnce | static/js/firewall/controller.js:544-572 | afterwards the rule set is listed once, under its source zone, with its destination |
| JsFirewall.PlacePairKeeps | static/js/firewall/controller.js:544-572 | the source zone's list is sorted and holds the placed pair, and every other rule set stays where it was |
| JsFirewall.SelectTarget | static/js/firewall/controller.js:218-225 | the selected rule set if the zone lists it, otherwise the zone's first, and none exactly when the zone has none |
| Reorder.MoveAt | static/js/firewall/controller.js:863-865 | after the two splices every position holds the element from the shifted position it came from, and the dragged one sits at the target |
| Reorder.MovePermutes | static/js/firewall/controller.js:863-865 | the move is a permutation: the same elements, each as often |
| Reorder.MoveSame | app/static/js/nat.js:499-500 | moving an element onto its own position changes nothing |
| Reorder.MoveBack | app/static/js/nat.js:499-500 | moving from the target back to the source undoes a move (also line 528-529) |
| FirewallEditor.RulesOf | static/js/firewall/controller.js:537-538 | one rule per received rule, in order, each with its id and number equal to the number text |
| FirewallEditor.InsertZone | static/js/firewall/controller.js:575-584 | a listed zone leaves the list unchanged; a new one is added and the list is sorted in code-point order |
| FirewallEditor.InsertZoneKeeps | static/js/firewall/controller.js:575-584 | every zone listed before stays listed |
| FirewallEditor.SameIdsIff | static/js/firewall/controller.js:879-882 | the position-wise id comparison holds exactly when the two id lists are equal |
| FirewallEditor.ReorderRequest | static/js/firewall/controller.js:905-909 | an order is sent exactly when a reorder is staged and a rule set is selected, and it is the ids on screen in order |
| FirewallEditor.IdsMove | static/js/firewall/controller.js:863-866 | the ids of the moved rules are the moved ids |
| FirewallEditor.SubmittedOrderPermutes | static/js/firewall/controller.js:905-909 | a staged order that is sent is a permutation of the received ids and differs from their order |
| FirewallEditor.FileRuleSetPlaces | static/js/firewall/controller.js:544-572 | after a payload the rule set is listed once, under its source zone, with its destination; the zone's list is sorted; every other rule set stays where it was |
| FirewallEditor.FileRuleSetListsZone | static/js/firewall/controller.js:574-584 | the source zone is listed afterwards, as is every zone listed before |
| FirewallEditor.Editor.constructor | static/js/firewall/controller.js:1435-1524 | the editor starts with no rules, nothing staged, the given zones and the given selection |
| FirewallEditor.Editor.ApplyPayload | static/js/firewall/controller.js:523-601 | no data clears the rules; data replaces rules and baseline, selects the rule set, files it under its source zone and selects that zone; any staged reorder is dropped, so the add button (controller.js:57-66) is then disabled only when the rule set name is empty |
| FirewallEditor.Editor.ClearRules | static/js/firewall/controller.js:524-532 | the rules and the baseline are emptied and nothing is staged; the selection and zones are kept |
| FirewallEditor.Editor.LoadRules | static/js/firewall/controller.js:535-538 | the mapped rules become both the rules on screen and the baseline, and the rule set is selected |
| FirewallEditor.Editor.FileUnderZone | static/js/firewall/controller.js:540-588 | without a source zone nothing changes; with one the rule set is filed under it and the zone is selected; the rules are untouched |
| FirewallEditor.Editor.UpdateRulesOrder | static/js/firewall/controller.js:878-894 | an order with the baseline's ids restores the baseline and clears the staged reorder; any other order is shown and staged |
| FirewallEditor.Editor.Drop | static/js/firewall/controller.js:852-868 | without a dragged row, without a target or onto the dragged row nothing changes; otherwise the moved order goes through the reorder update |
| FirewallEditor.Editor.CancelReorder | static/js/firewall/controller.js:896-903 | the rules go back to the baseline and nothing is staged |
| FirewallEditor.Editor.SubmitReorder | static/js/firewall/controller.js:905-941 | the order sent is the staged order, a permutation of the baseline's ids that differs from it; a failed request or no staged order changes nothing at all; an empty reply clears the rules and the staging and keeps the selection and the zones; a reply with rules loads them as the new baseline, keeps the selected rule set and files it under its source zone, which becomes the selected zone |
| FirewallEditor.Editor.SelectZone | static/js/firewall/controller.js:212-239 | an empty zone is ignored; otherwise the zone is selected, the rule set kept if listed there or else the zone's first, fetched when there is one, and the rules cleared when there is none |
| FirewallEditor.Editor.ClickZone | static/js/firewall/controller.js:241-251 | a zone click is refused while a reorder is staged |
| FirewallEditor.Editor.ClickPair | static/js/firewall/controller.js:253-272 | a rule set click is refused while a reorder is staged or without a name; otherwise that rule set and its zone, when given, are selected and fetched |
| FirewallEditor.DropAndDropBack | static/js/firewall/controller.js:852-894 | dragging a row away and back clears the staged reorder and leaves the rules as they were |
| FirewallEditor.DropThenCancel | static/js/firewall/controller.js:852-903 | a drop followed by cancel restores the order last received |
| NatStaging.OfKind | app/static/js/nat.js:943-944 | the rules of one type, and no others |
| NatStaging.OfKindConcat | app/static/js/nat.js:943-944 | filtering by type distributes over concatenation |
| NatStaging.Slots | app/static/js/nat.js:948 | copying rules into a staged order keeps them in order, one entry per rule (also line 951) |
| NatStaging.RulesOf | app/static/js/nat.js:573 | a staged order without undefined entries is read back as its rules, and copying them gives the order back |
| NatStaging.RulesOfSlots | app/static/js/nat.js:948 | rules copied into a staged order read back unchanged |
| NatStaging.Splice | app/static/js/nat.js:499-500 | the two splices for any indices: inside the order the length stays; a dragged index past the end adds an undefined entry (also line 528-529) |
| NatStaging.SpliceInRange | app/static/js/nat.js:499-500 | with both indices inside the order the splices are the drag-and-drop move |
| NatStaging.SpliceInRangeMultiset | app/static/js/nat.js:499-500 | inside the order the splices lose and duplicate nothing |
| NatStaging.SplicePastEndMultiset | app/static/js/nat.js:499-500 | past the end the splices add exactly one undefined entry |
| NatStaging.SpliceDefined | app/static/js/nat.js:499-500 | a move by an index inside an order without undefined entries puts none in |
| NatStaging.SpliceKeepsRules | app/static/js/nat.js:499-500 | the rules of a staged order survive every move, each as often; only undefined entries may be added |
| NatStaging.SlotsMove | app/static/js/nat.js:499-500 | moving rules commutes with copying them into a staged order |
| NatStaging.Project | app/static/js/nat.js:689-695 | the saved form of a rule holds exactly the named fields it has, with their values (also line 806-812) |
| NatStaging.Projections | app/static/js/nat.js:689-695 | one saved form per rule, in order (also line 806-812) |
| NatStaging.ProjectionsMove | app/static/js/nat.js:689-695 | the saved forms of the moved rules are the moved saved forms |
| NatStaging.StagedOrder.constructor | app/static/js/nat.js:8-14 | an order starts with the given rules and rows, no original and nothing staged |
| NatStaging.StagedOrder.Render | app/static/js/nat.js:549-573 | the rows become the staged order; an empty order, or one with an undefined entry whose fields cannot be read, leaves the rows as drawn |
| NatStaging.StagedOrder.Reorder | app/static/js/nat.js:484-547 | on the source side, an order with an undefined entry makes the logging throw and nothing changes; otherwise the first move keeps a copy of the order and the two splices are applied for any indices; the reorder is staged and the table redrawn, except on the source side when the new order has an undefined entry, which leaves the staging flag and the rows as they were (also line 521-545) |
| NatStaging.StagedOrder.Discard | app/static/js/nat.js:758-779 | nothing happens when clean; otherwise the original order comes back and is drawn, nothing is staged and the original is emptied (also line 878-899) |
| NatStaging.StagedOrder.Replace | app/static/js/nat.js:946-970 | the rows are the received rules; a staged reorder keeps its order, otherwise the received rules become the staged order |
| NatStaging.StagedOrder.Clear | app/static/js/nat.js:912-939 | no rules received: the table is emptied and the orders stay |
| NatStaging.StagedOrder.Saved | app/static/js/nat.js:713-715 | after an "ok" save nothing is staged and the original is emptied; the staged order and the rows stay |
| NatStaging.NatPage.constructor | app/static/js/nat.js:1085-1096 | the page starts from the initial rules split by type, with the rows the server drew, nothing staged and no delete pending |
| NatStaging.NatPage.Drop | app/static/js/nat.js:407-423 | the indices are those of drawn rows; without a dragged row of that table, without a target or onto the dragged row nothing changes; otherwise handleReorder runs as StagedOrder.Reorder states, source logging throws included; when the table showed the staged order, the dragged rule lands on the target row and the reorder is staged (also line 459-474) |
| NatStaging.NatPage.RefreshRulesTable | app/static/js/nat.js:908-970 | both tables are drawn from the rules received, empty for a missing or empty list; a side without a staged reorder takes its received rules as staged order, a side with one keeps it; the staging flags are untouched |
| NatStaging.NatPage.RefreshRulesTableFixed | app/static/js/nat.js:946-952 | intended refresh: a side with a staged reorder is drawn from it, a side without one takes the received rules; afterwards each table shows its staged order |
| NatStaging.NatPage.RefreshSideFixed | app/static/js/nat.js:946-952 | one side of the intended refresh, with the same guarantees |
| NatStaging.NatPage.SaveOrder | app/static/js/nat.js:669-756 | something is sent exactly when a reorder is staged and has no undefined entry, namely the saved forms in the staged order; only an "ok" reply clears the staging and refreshes both sides as RefreshRulesTable does; anything else keeps the orders and the rows (also line 786-876) |
| NatStaging.NatPage.DiscardOrder | app/static/js/nat.js:758-784 | the original order comes back, is drawn, and nothing is staged (also line 878-904) |
| NatStaging.NatPage.OpenDelete | app/static/js/nat.js:248-251 | the rule to delete is remembered |
| NatStaging.NatPage.CloseDelete | app/static/js/nat.js:271-274 | the rule to delete is forgotten |
| NatStaging.NatPage.ConfirmDelete | app/static/js/nat.js:294-349 | a delete is sent exactly when both a rule type and a rule number are set; an "ok" reply refreshes both sides as RefreshRulesTable does and closes the dialog; anything else keeps it open with the orders and rows as they were |
| NatStaging.MoveAndMoveBack | app/static/js/nat.js:484-547 | on a table showing the staged order, a move and its reverse restore the order, but the reorder stays staged |
| NatStaging.MovesThenDiscard | app/static/js/nat.js:484-547 | moves by any indices followed by a discard restore the order staged before the first move, except on the source side when the first move drags an index past the end of an order without undefined entries: then nothing is staged, the discard does nothing and the order keeps the undefined entry of that first move (also line 758-766) |
| NatStaging.DropWithoutInitialRules | app/static/js/nat.js:484-505 | a page loaded without initial rules and with two source rows: dropping the first row onto the second leaves the source order as one undefined entry with nothing staged and the rows as drawn; a second drop changes nothing and a save sends nothing (also line 1085-1096) |
| NatStaging.StaleRowsMoveAnotherRule | app/static/js/nat.js:946-970 | a refresh during a staged reorder draws the router's order; dropping the first row (rule a) onto the second leaves a first, with b on the target row |
| NatStaging.FixedRefreshThenDrop | app/static/js/nat.js:946-952 | with the intended refresh, the rule on the dragged row lands on the target row and the table keeps showing the staged order |
| NatStaging.SavedFormsPermute | app/static/js/nat.js:689-695 | a move sends the same saved forms as before it, in another order |
| Text.Strip | app/modules/firewall/rules/utils.py:154 | `str.strip()`: no longer than the input, built from its characters, with no whitespace at either end |
| Text.StripEmptyIffBlank | app/modules/firewall/rules/utils.py:154-156 | a token strips to nothing exactly when it is all whitespace |
| Text.StripIdempotent | app/modules/firewall/rules/utils.py:154 | stripping twice is the same as once |
| Text.StripChars | app/modules/firewall/rules/utils.py:157 | `strip("'\"")`: no longer than the input, built from its characters, with none of the stripped characters at either end |
| Text.JoinSplit | app/modules/firewall/rules/utils.py:153 | joining the parts of a split with the separator gives the text back |
| Text.SplitJoin | app/modules/firewall/rules/utils.py:153 | splitting separator-free parts joined by the separator gives the parts back |
| Text.ParseIntStr | app/modules/firewall/rules/views.py:355 | `int()` reads the decimal text of a number back as that number |
| Numbers.AllNumbers | app/modules/firewall/rules/views.py:355 | `int(key)` of every key in order, or a failure exactly when some key is not a number |
| Numbers.SortedNumbers | app/modules/firewall/rules/views.py:355 | `sorted(int(key) ...)`: fails exactly when some key is not a number; otherwise a non-decreasing permutation of the numbers |
| Numbers.MaxOf | app/static/js/firewall/controller/forms.js:154 | `Math.max`: one of the numbers, and no number above it |
| Sorting.SortBy | app/modules/firewall_groups/utils.py:172 | `sorted(..., key=...)`: ordered by the key and a permutation of the input (its stability is SortByStable) |
| Sorting.SortByStable | app/modules/firewall_groups/utils.py:172 | `sorted` is stable: the elements of each key class keep their input order |
| Sorting.InsertByTied | app/modules/firewall_groups/utils.py:172 | inserting an element places it after every element of its key class already sorted |

## Left out

- Device.Step: a set only adds its path and never replaces the old value of a single-valued leaf (for example `service dhcp-server high-availability mode`), because which nodes are single-valued is the device's schema, which is not part of this repository. So the "nothing removed" and "exactly ... plus every path set" clauses hold for the path-set store only: `Device.DeletesThenSets`, `DhcpService.AddBatch`, `DhcpService.CreateEffect`, `DhcpService.LegacyAllOk`, `DhcpService.LegacyCreateEffect`, `DhcpService.ToggleReach` (its "kept" direction) and `ZoneViews.CreateZoneEffect`. On the device, a set on an occupied single-valued leaf also removes that leaf's previous value.
- Network and device I/O, Flask request parsing, sessions, logging and `mark_config_dirty` are not modelled. The device is an abstract store. Each device response and each configuration read is a parameter.
- Handler branches that only catch an unexpected exception and answer 500 (the `try`/`except` around each Flask handler) are not modelled, apart from the failures the models return as values.
- The `create` handler in `app/modules/static_routes/views.py` notices a parser crash only when `StaticRoutes.ParseStaticRoutesSpec` returns None. Other exceptions are not modelled.
- `app/modules/interfaces/zone.py` is not part of this model. The interface handlers are modelled over the legacy `interfaces/zone.py` helpers, which the newer module imports under the same names.
- `static/js/firewall/constants.js` and the app copy of the firewall constants are not part of this model. The constants the scripts use (100 as the first rule number) are written out.
- The `list_leases` handler in `app/modules/dhcp/views.py:615-686` is not modelled. Only the legacy pool filter and the shared `parse_lease_table` are.
- `applyZoneUpdate` (`static/js/firewall/controller.js:603-692`) and the rendering of the zone list are not modelled. `FirewallEditor.InsertZone` and `FirewallEditor.FileRuleSetPlaces` cover the data it files.
- DOM access, rendering, toasts, button enabling and the `fetch` calls of the browser scripts are not modelled. Request bodies are values, and responses are parameters.
- Text.IsSpace: only ASCII whitespace. Python's `str.strip` also strips Unicode whitespace such as `\x1c`-`\x1f`, `\x85` and `\u00a0`.
- Text.ParseInt: only ASCII digits and an optional sign around stripped text. Python's `int()` also accepts other Unicode digits and underscores between digits (`"1_0"` is 10). The same ASCII restriction applies to the `\d` and `isdigit` tests elsewhere.
- Text.Lower: ASCII case mapping only. This covers Python's `lower()` in `get_dhcp`'s name match (`DhcpLookup.GetDhcpScope`) and JavaScript's `toLowerCase`/`toUpperCase`/`trim`.
- IfaceDetail.ParseInterfaceDetail: the text is taken as already split into lines, so `str.splitlines` (and its Unicode line breaks) is not modelled.
- DhcpScope.DeleteCommands: the removed values are deleted in the order of the previous list. The source iterates a set difference, whose order Python leaves unspecified. `DhcpScope.ReadRemoved` states the order-free content.
- JSON values are modelled as strings, maps, lists or absent. Numbers and booleans in request bodies are strings, so cases such as `str(5.0)` or `bool(0)` are not modelled. A JavaScript `undefined` key is an absent one.
- JsFirewall.SortPairs: `localeCompare` is modelled as code-point order of the strings.
- FirewallEditor.InsertZone: the zone list is sorted with `localeCompare` (`static/js/firewall/controller.js:581`), modelled as code-point order, so zone names that differ in case or punctuation may be ordered differently.
- NatStaging.NatPage.OpenDelete: the NAT rule number is kept as the text the page holds. It is not parsed.
- Reorder.Move: the two indices must be inside the list. The firewall editor always draws its rows from the list it moves, so its drop indices are inside it (the same requires is on FirewallEditor.Editor.Drop). The NAT page can draw rows that differ from its staged order, so it uses NatStaging.Splice, which covers indices past the end.
- NatStaging.NatPage.constructor: the rows drawn at page load come from the page template, which is not part of this model. They are a parameter.
- NatStaging.SavedFormsPermute: proved for one move. Longer runs of moves follow by repeating it.
- IfaceViews.EditBatch: the DHCP and DNS paths that an address change deletes and sets (`EditDevice.serviceDeletes`, `EditDevice.serviceSets`) are inputs. The edit does not compute them. `app/modules/interfaces/views.py:443-505` finds the old shared network among the description, the normalised name and the interface name. It deletes that network and sets `build_dhcp_paths` for the new address with `get_next_subnet_id`. It swaps the DNS listen and allow-from paths through `build_dns_paths` and adds `dns_cache_commands`. Those helpers are modelled on their own (`DhcpPaths.BuildDhcpPaths`, `DhcpPaths.BuildDnsPaths`, `DhcpPaths.NextSubnetId`, `DhcpPaths.CacheCommands`), but the lookup over the interface configuration that ties them together is not.
- IfaceViews.AddCommands: the DHCP and DNS commands of a new static interface (`AddDevice.serviceCommands`) are an input. The model does not compute them the way `_augment_with_services` (`app/modules/interfaces/views.py:565-580`) does. That function builds `build_dhcp_paths` under the description or interface name with `get_next_subnet_id`. It adds that shared network's `disable` flag when `has_active_dhcp_scope` holds. It then adds `build_dns_paths` and `dns_cache_commands`. The helpers are modelled in DhcpPaths (`DhcpPaths.HasActiveDhcpScope` among them). The model does not cover the 400 that `build_dhcp_paths` raises for `255.255.255.255/32`.

## Findings

| source | as written | input that shows it | evidently intended | confidence | as-written member | corrected member |
|---|---|---|---|---|---|---|
| app/modules/interfaces/nat.py:165-185 | `reorder_managed_nat_rules` renumbers the managed rules to MIN+i without looking at the unmanaged rules | managed rules at MIN and MIN+2 and an unmanaged rule at MIN+1: the second managed rule is re-set under MIN+1, merging into the unmanaged rule | managed rules move only into numbers no unmanaged rule holds | not executed | ManagedNat.ReorderOverwritesUnmanaged | ManagedNat.ReorderManagedNatRulesFixed (with ManagedNat.FixedReorderSparesUnmanaged, ManagedNat.FixedAgreesWithoutClash) |
| app/modules/dhcp/views.py:188-202 | when the shared network or subnet changes, `_build_delete_commands` returns only the delete of the old root | an authoritative scope edited to a new subnet in the same shared network with `authoritative` switched off: the flag stays on the device | a moved scope also deletes the authoritative flag the edit switches off | not executed | DhcpScope.AuthoritativeSurvivesSubnetChange (at the handler, DhcpService.UpdateLeavesFlagOnMove and DhcpService.UpdateFlagAsWritten) | DhcpScope.DeleteCommandsFixed (with DhcpScope.AuthoritativeAfterUpdateFixed; at the handler, DhcpService.UpdateOpsFixed and DhcpService.UpdateFlagFixed) |
| app/modules/firewall_groups/views.py:155-189 | create and update build members from the raw list, and `build_group_set_commands` (utils.py:196-199) drops blank members | interface-group `lan` with members `[" "]` and no description: create reports success with an empty batch, and update sends only the delete of the group | a request whose members are all blank is refused with 400, so every accepted group keeps a member | not executed | FirewallGroups.BlankMembersCreateNothing (with FirewallGroups.BlankMembersUpdateDeletes) | FirewallGroups.CreateGroupFixedSpec (with FirewallGroups.UpdateGroupFixedSpec, FirewallGroups.CreateFixedLeavesMember, FirewallGroups.UpdateFixedLeavesMember, FirewallGroups.FixedAgreesWithNonBlank) |
| app/modules/interfaces/views.py:401-411 | `interfaces_edit` checks that source NAT needs a static address only after it has deleted the interface's address (line 333) | a DHCP-mode edit naming `eth1` as the source-NAT interface: the address is deleted, then the answer is 400 | every 400 check runs before the first change | not executed | IfaceViews.DhcpSourceNatRefusedAfterChanges | IfaceViews.ValidateEditFixed (with IfaceViews.InterfacesEditFixed, IfaceViews.FixedNatPlanPasses, IfaceViews.FixedRefusesBeforeChanges) |
| app/static/js/nat.js:946-970 | `refreshRulesTable` redraws a table from the router's rules even while a reorder of that table is staged, and keeps the staged order; the drop handler then splices the staged order by the indices of the redrawn rows | source rules a, b; drag a below b (staged b, a); delete any destination rule (the refresh draws a, b); drag the first row, a, below b: the staged order becomes a, b, so a stays first and the table shows a, b again | while a reorder is staged the table shows the staged order, so a drop moves the rule on the dragged row | not executed | NatStaging.StaleRowsMoveAnotherRule | NatStaging.NatPage.RefreshRulesTableFixed (with NatStaging.NatPage.RefreshSideFixed, NatStaging.FixedRefreshThenDrop) |
