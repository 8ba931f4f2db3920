# Report post-processing of the Preupgrade Assistant, in Dafny

This project models two parts of the Preupgrade Assistant.

The first is `ReportParser`. It holds the XCCDF result document that `oscap` produced and rewrites it after a scan:
- `remove_empty_check_import` drops empty stdout/stderr check-imports;
- `replace_inplace_risk` reclassifies every rule-result from its in-place risks;
- `remove_debug_info`, `strip_whitespaces` and `update_check_description` clean up module output and rule descriptions;
- `select_rules`, `check_rules` and `list_rules` mark and query the profile's `select` elements;
- `get_allowed_selected_rules`, `get_number_checks` and `get_name_of_checks` answer questions about the selected rules;
- `add_global_tags` inserts run-time `Value` elements after each `Profile`;
- `modify_result_path` rewrites `SCENARIO` in the `_current_dir` values;
- `write_xccdf_version` swaps the XCCDF 1.1 and 1.2 namespaces.

The second is the scan progress tracker (`ScanProgress`) and the result table (`format_rules_to_table`, ordered by `compare_data`).

The document is an immutable tree value, `ReportTree.Node`: a tag, an attribute map, an optional text and the children.

Each pass exists in two forms:
- a specification function on trees, in `ReportPasses`, `ReportText`, `ReportQueries` and `ReportGlobals`, with lemmas about what the pass does;
- a method of the class `ReportParsing.ReportParser`, which holds the tree in `targetTree` and performs the pass with the source's loops. Each method is proved to compute the specification function.

Where the source raises an exception, the model returns `None`, or the method returns `ok == false`.

Python's string operations are modelled in `PyStr`: `split` with a separator, `join`, ASCII `strip`, `in` on strings, `replace`, `ljust`, string order and `%.3d`. ElementTree's `find` and `findall` (child, grandchild and `.//` searches) are modelled in `ReportTree`; `getiterator`'s document-order walk is modelled by `ReportText.StripAll`.

Modules:
- `wrappers.dfy`: `Option`.
- `strings.dfy`: `PyStr`.
- `report_tree.dfy`: `ReportTree`.
- `report_passes.dfy`: the cleanup and the risk reclassification.
- `report_text.dfy`: debug lines, whitespace, descriptions and the namespace swap.
- `report_queries.dfy`: selects and rules.
- `report_globals.dfy`: global tags and result paths.
- `report_parser.dfy`: the class.
- `scanning.dfy`: `compare_data` and the table.
- `scan_progress.dfy`: `ScanProgress`.

## Model

| member | source | states |
|---|---|---|
| ReportTree.GetNodesAttrib | preupg/report_parser.py:60-64 | the attribute of the first child with the tag, or `''` when there is no such child or no such attribute |
| ReportTree.GetNodesText | preupg/report_parser.py:69-77 | the stripped text of the first child with the tag, `''` when that child is missing or has no text; the result has no surrounding whitespace |
| ReportTree.WriteXml | preupg/report_parser.py:131-137 | the document gains the `xmlns:xhtml` declaration and is otherwise unchanged |
| ReportTree.GrandchildrenOfMap | preupg/report_parser.py:48-51 | updating every grandchild that `filter_grandchildren` finds yields exactly the updated grandchildren, in order |
| ReportPasses.KeptImportsMembers | preupg/report_parser.py:198-208 | a check-import survives the cleanup iff it is not an empty stdout/stderr import; order is kept |
| ReportPasses.RemoveEmptyCheckImportsRuleResults | preupg/report_parser.py:198-208 | after the cleanup the rule-results are the cleaned rule-results, one for one and in order |
| ReportPasses.Classify | preupg/report_parser.py:160-191 | the three `if` statements on one result: risks on a non-fail result give `error`; fail without risks gives `error`; fail with risks takes the level mapping; `unknown` gives `error`; anything else is unchanged; at most one entry is recorded, and it names the final text |
| ReportPasses.ReclassifyRuleResult | preupg/report_parser.py:160-191 | raises without a `result` child, or exactly when `Classify` of the result text, the risks and their level records an entry and the rule-result has no `idref`; otherwise the new result text is `Classify`'s, the entry `idref:newresult` is recorded iff `Classify` records one, only the text of that `result` child changes, and an unrecorded rule-result is unchanged |
| ReportPasses.AccumAllShape | preupg/report_parser.py:160-191 | walking the rule-results keeps each one's outcome in its own position, with no more entries than rule-results |
| ReportPasses.AccumAllAppend | preupg/report_parser.py:160-191 | walking `a + b` is walking `a` and then `b`; it raises iff either part raises |
| ReportPasses.AccumTaggedNoneExtends | preupg/report_parser.py:160-191 | once the walk over a prefix raises, the walk over the whole raises |
| ReportPasses.AccumGrandNoneExtends | preupg/report_parser.py:160-191 | the same for the walk over the TestResults |
| ReportPasses.AccumTaggedIsFlat | preupg/report_parser.py:160-191 | walking the rule-results of one TestResult in place is the flat walk over its rule-results |
| ReportPasses.AccumGrandIsFlat | preupg/report_parser.py:160-191 | the nested walk over TestResults and rule-results is the flat walk over `get_all_rule_results` |
| ReportPasses.ReplaceInplaceRiskIsFlat | preupg/report_parser.py:150-196 | `replace_inplace_risk` raises iff some cleaned rule-result's step raises; the new rule-results are the stepped ones; `changed_results` is in document order with at most one entry per rule-result |
| ReportText.DropDebugLinesMembers | preupg/report_parser.py:221-235 | a line is kept iff it does not match `^preupg.log.DEBUG` |
| ReportText.DropDebugLinesAppend | preupg/report_parser.py:228-234 | lines are filtered one at a time: the kept lines of `a + b` are those of `a` followed by those of `b`, so the kept lines keep their order and repeats |
| ReportText.WithoutDebugLines | preupg/report_parser.py:221-235 | the new text's lines are the kept lines (a single empty line when none is kept); no debug line remains |
| ReportText.WithoutDebugIdempotent | preupg/report_parser.py:221-235 | removing debug lines twice is removing them once |
| ReportText.WithoutDebugNoDebug | preupg/report_parser.py:221-235 | a text without debug lines is unchanged |
| ReportText.RemoveDebugInfoImports | preupg/report_parser.py:221-235 | every check-import of every rule-result has lost its debug lines, and no element was added or removed |
| ReportText.PaddedText | preupg/report_parser.py:237-249 | a node's text changes only if it is a stdout/stderr check-import; such a text is stripped of the leading newline and the trailing padding exactly when it has both, and a text that is only the padding becomes `''` |
| ReportText.StripAllShape | preupg/report_parser.py:237-249 | `strip_whitespaces` changes only texts of stdout/stderr check-imports, at any depth |
| ReportText.RewriteLineSpec | preupg/report_parser.py:277-286 | a `Details:` line gets the details tag, otherwise an `Expected results:` line gets the closing and opening tags, and any other line is unchanged |
| ReportText.RewriteDescriptionTextSpec | preupg/report_parser.py:266-290 | a description changes iff it has a marker line; when it does, it ends with the closing expected-results tag |
| ReportText.RuleStepRewrites | preupg/report_parser.py:266-290 | one subtree after the pass: at every depth each element keeps its tag, attributes and number of children, a `description` whose parent is a `Rule` gets the rewritten text, and every other text is kept |
| ReportText.RewriteRulesBelowSpec | preupg/report_parser.py:266-290 | the same for the whole document, whose top is not one of the `.//Rule` hits; its attributes are kept |
| ReportText.RewriteRulesBelowRuleChild | preupg/report_parser.py:266-290 | a description directly under a `Rule` gets the rewritten text of the original |
| ReportText.UpdateCheckDescription | preupg/report_parser.py:266-290 | the pass raises iff some `Rule` below the top has a description without text; otherwise every `description` child of every such `Rule`, at any depth, has the rewritten text, every other element keeps its tag, attributes and text, and the top gains `xmlns:xhtml` |
| ReportText.RegexSubNoMatch | preupg/report_parser.py:252-264 | content without a match of the pattern is unchanged |
| ReportText.RegexSubKeepsMisfit | preupg/report_parser.py:252-264 | with a replacement that cannot take part in a match, text that does not complete a match begun earlier still does not after the substitution |
| ReportText.RegexSubNoMatchLeft | preupg/report_parser.py:252-264 | with such a replacement, no match of the pattern is left anywhere after `re.sub` |
| ReportText.NamespacesInert | preupg/report_parser.py:252-264 | each XCCDF namespace is such a replacement for the other's pattern, the unescaped dots included |
| ReportText.MatchesAtDrop | preupg/report_parser.py:252-264 | a match after the first `m` characters is a match in the rest of the text |
| ReportText.RegexSubKeepsRest | preupg/report_parser.py:252-264 | with a replacement as long as the pattern, `re.sub` keeps the length, and every character it changes lies inside a match of the pattern in the input and is the replacement's character at that offset |
| ReportText.WriteXccdfVersion | preupg/report_parser.py:252-264 | the namespace swap keeps the content's length; every changed character lies inside a match of the replaced namespace's pattern and comes from the other namespace; and no match of the replaced pattern is left: no 1.2 namespace after the swap to 1.1, no 1.1 namespace after the swap to 1.2 |
| ReportText.WildcardNamespace | preupg/report_parser.py:252-264 | the unescaped `.` in the pattern also rewrites `checklists-nist.gov` |
| ReportQueries.SetSelected | preupg/report_parser.py:298-305 | a select is marked `true` iff its `idref` is one of the rules, and `false` otherwise; nothing else about it changes |
| ReportQueries.SelectRulesMarks | preupg/report_parser.py:292-306 | after `select_rules` the selects are the marked selects, one for one |
| ReportQueries.AllowedSelectedMembers | preupg/report_parser.py:96-101 | a select is allowed iff it is marked `selected="true"`, and is listed as often as it occurs among the selects; there are no more allowed selects than selects |
| ReportQueries.AllowedSelectedRepeats | preupg/report_parser.py:96-101 | a marked select is listed as often as it occurs among the selects, an unmarked one never |
| ReportQueries.AllowedSelectedAppend | preupg/report_parser.py:97-101 | the selects are scanned in document order: the allowed selects of `a + b` are those of `a` followed by those of `b` |
| ReportQueries.AllowedSelectedCount | preupg/report_parser.py:96-101 | there is one allowed select per position whose select is marked `selected="true"` |
| ReportQueries.GetNumberChecks | preupg/report_parser.py:103-105 | the number of checks is the number of selects marked `selected="true"`, so at most the number of selects |
| ReportQueries.NumberChecksAfterSelect | preupg/report_parser.py:103-105 | after `select_rules(rules)` the number of checks is the number of selects whose `idref` is listed |
| ReportQueries.UnknownRulesAppend | preupg/report_parser.py:308-319 | the unknown rules of `a + b` are those of `a` followed by those of `b`: the input order is kept |
| ReportQueries.UnknownRulesCount | preupg/report_parser.py:308-319 | an unknown rule is reported as often as it is asked about, a known one never |
| ReportQueries.CheckRulesSpec | preupg/report_parser.py:308-319 | raises iff some rule is asked about and some select lacks `idref`; otherwise returns exactly the given rules that no select's `idref` contains, each as often as it was given |
| ReportQueries.IdrefsAppend | preupg/report_parser.py:322-327 | the selects are scanned in document order: the `idref`s of `a + b` are those of `a` followed by those of `b`, repeats included |
| ReportQueries.ListRulesSpec | preupg/report_parser.py:321-327 | lists exactly the non-empty `idref`s, each once per select that carries it, and `check_rules` of that list reports nothing unknown |
| ReportQueries.IdrefsRepeats | preupg/report_parser.py:322-327 | a non-empty `idref` occurs in the list once per select whose `idref` it is; the empty `idref` never occurs |
| ReportQueries.FirstWithId | preupg/report_parser.py:116 | the first rule whose `id` (or `''`) is the select's `idref` |
| ReportQueries.NamesOfDefined | preupg/report_parser.py:110-118 | raises iff some allowed select names no rule |
| ReportQueries.NamesOfCovers | preupg/report_parser.py:110-118 | when it does not raise, maps every allowed `idref` to its rule's title |
| ReportQueries.NamesOfOnly | preupg/report_parser.py:110-118 | when it does not raise, maps nothing but the allowed `idref`s |
| ReportGlobals.GlobalValue | preupg/report_parser.py:337-354 | the value of each key: the result directory, `1`/`0` by mode, the joined report dir, `True`/`False`, the native distribution or `sign`, and the default for other keys |
| ReportGlobals.GlobalNodes | preupg/report_parser.py:355-360 | one string `Value` per key, with id `TAG_VALUE + key` and the key's value |
| ReportGlobals.ExpandProfilesSpec | preupg/report_parser.py:333-362 | every original child is kept in order, and each `Profile` is followed at once by the whole block |
| ReportGlobals.ExpandProfilesLength | preupg/report_parser.py:333-362 | the root grows by one block per `Profile` |
| ReportGlobals.AddGlobalTagsOrder | preupg/report_parser.py:361-362 | right after each `Profile` come the values of the last key first and of the first key last |
| ReportGlobals.ValueStepUpdates | preupg/report_parser.py:139-148 | one subtree after the pass: at every depth each element keeps its tag, attributes and number of children, a `value` whose parent is a `_current_dir` `Value` has `SCENARIO` replaced by the joined path, and every other text is kept |
| ReportGlobals.UpdateValuesBelowSpec | preupg/report_parser.py:139-148 | the same for the whole document, whose top is not one of the `.//Value` hits; its attributes are kept |
| ReportGlobals.UpdateValuesBelowChild | preupg/report_parser.py:141-146 | a `value` of a `_current_dir` `Value` gets `SCENARIO` replaced by the joined path; values of other `Value`s keep their text |
| ReportGlobals.ModifyResultPath | preupg/report_parser.py:139-148 | raises iff some `Value` below the top lacks an `id`, or a `_current_dir` one has a `value` without text; otherwise every such `value`, at any depth, has `SCENARIO` replaced by the joined path, every other element keeps its tag, attributes and text, and the top gains `xmlns:xhtml` |
| ReportGlobals.ReplaceScenarioAbsent | preupg/report_parser.py:146 | a value without `SCENARIO` is unchanged |
| Scanning.CompareDataSpec | preup/scanning.py:5-26 | the key is the result's code when the row has exactly three fields and a known result, and `99` otherwise; every code sorts below `99` |
| Scanning.SortDesc | preup/scanning.py:41 | `sorted(..., key=compare_data, reverse=True)` returns a permutation of the rows |
| Scanning.SortDescSorted | preup/scanning.py:41 | the sorted rows are in descending key order |
| Scanning.SortDescStable | preup/scanning.py:41 | rows with equal keys keep their input order |
| Scanning.MaxFieldLen | preup/scanning.py:36-37 | every row's field fits the column width; `0` for no rows |
| Scanning.MaxFieldLenAttained | preup/scanning.py:36-37 | the column width is no larger than needed: some row's field has exactly that length, so it is the length of the longest field |
| Scanning.FormatRulesToTableFails | preup/scanning.py:29-37 | raises iff some row has fewer than three fields; no output at all for no rows |
| Scanning.FormatRulesToTableShape | preup/scanning.py:38-50 | header, rule, one line per row in descending order of `compare_data`, and the rule again |
| Scanning.FormatRulesToTableWidth | preup/scanning.py:39-49 | every table line is exactly as wide as the rule; a row without exactly three fields is logged as an error |
| Progress.SortedKeys | preup/scanning.py:109 | `sorted(names)`: strictly increasing and holding exactly the keys |
| Progress.PyIndex | preup/scanning.py:65-73 | Python list indexing, negative indices included |
| Progress.ProgressLinesSpec | preup/scanning.py:83-99 | two or three log calls, the last always to the log file only; a running line iff modules remain; console lines only when not in debug mode |
| Progress.RunningLineErased | preup/scanning.py:88-98 | for modules numbered below 1000, the running line is the eleven-character counters followed by `running (name)`; the `done` line's backspaces erase exactly `running (name)`, leaving the counters, and `done    (name)` has the same width |
| Progress.UpdateRowSpec | preup/scanning.py:121-131 | a row changes only if it has three fields and a changed entry contains its rule id, and then it takes that entry's result |
| Progress.UpdateRowMatched | preup/scanning.py:121-131 | a three-field row that some entry mentions: the update raises iff the first such entry has no second field; otherwise the row keeps its title and rule id, takes that field as its result, and changes iff that result differs |
| Progress.UpdateRowUnmentioned | preup/scanning.py:121-131 | a row whose rule id no entry contains is unchanged |
| Progress.ScanProgress.constructor | preup/scanning.py:57-63 | a tracker with no modules done, no rows and no names |
| Progress.ScanProgress.GetFullName | preup/scanning.py:65-73 | the name at that index of the sorted ids, or `''` when the index is out of range |
| Progress.ScanProgress.ShowProgress | preup/scanning.py:75-99 | appends the stripped line, counts the module and makes the log calls of `ProgressLines` |
| Progress.ScanProgress.SetNames | preup/scanning.py:101-109 | stores the names, and the sorted ids hold exactly their keys |
| Progress.ScanProgress.GetOutputData | preup/scanning.py:111-115 | the recorded rows |
| Progress.ScanProgress.UpdateData | preup/scanning.py:117-131 | each row is updated in place; it raises iff some row's matching entry has no second field, and then the rows from that one on are as they were |
| ReportParsing.ReportParser.constructor | preupg/report_parser.py:32-40 | the parser holds the path and the parsed document |
| ReportParsing.ReportParser.WriteXml | preupg/report_parser.py:131-137 | the document becomes `ReportTree.WriteXml` of it |
| ReportParsing.ReportParser.RemoveEmptyCheckImport | preupg/report_parser.py:198-208 | the nested loops compute the cleanup |
| ReportParsing.ReportParser.RemoveDebugInfo | preupg/report_parser.py:221-235 | the nested loops compute the debug removal, then write |
| ReportParsing.ReportParser.StripWhitespaces | preupg/report_parser.py:237-249 | the walk over every element computes the stripping |
| ReportParsing.ReportParser.UpdateCheckDescription | preupg/report_parser.py:266-290 | the line loop computes the rewrite; fails exactly when the source raises |
| ReportParsing.ReportParser.SelectRules | preupg/report_parser.py:292-306 | the select loop computes the marking, then write |
| ReportParsing.ReportParser.CheckRules | preupg/report_parser.py:308-319 | the loops compute `check_rules`, raising exactly where it does |
| ReportParsing.ReportParser.ListRules | preupg/report_parser.py:321-327 | the loop computes `list_rules` |
| ReportParsing.ReportParser.GetAllowedSelectedRules | preupg/report_parser.py:96-101 | the loop computes the allowed selects |
| ReportParsing.ReportParser.GetNumberChecks | preupg/report_parser.py:103-105 | the count of allowed selects |
| ReportParsing.ReportParser.GetNameOfChecks | preupg/report_parser.py:110-118 | the loop computes the name map, raising exactly where `rule[0]` does |
| ReportParsing.ReportParser.AddGlobalTags | preupg/report_parser.py:333-362 | the insert loops compute the expanded document, then write |
| ReportParsing.ReportParser.ModifyResultPath | preupg/report_parser.py:139-148 | the loops compute the path rewrite; fails exactly when the source raises |
| ReportParsing.ReportParser.ReplaceInplaceRisk | preupg/report_parser.py:150-196 | cleanup, then reclassification as specified; the tracker's rows are updated with `changed_results` and its other fields are unchanged; the document is written unless a step raised; when the reclassification raises it is the cleaned document and the tracker is untouched, and when updating the tracker raises it is the reclassified document, not written |
| ReportParsing.ReclassifyOne | preupg/report_parser.py:160-191 | the three `if` statements on one rule-result compute `ReclassifyRuleResult` |
| ReportParsing.InsertGlobals | preupg/report_parser.py:337-361 | inserting each key's `Value` right after the `Profile` leaves the block in reverse key order |
| ReportParsing.RewriteDescriptionLines | preupg/report_parser.py:270-289 | the enumerate loop with `found` computes the description rewrite |
| ReportParsing.DropDebug | preupg/report_parser.py:228-234 | the line loop computes the debug removal of one text |

## Left out

- XML parsing, serialisation and file I/O. `ReportParser` starts from an already parsed document. `write_xml` only adds the `xmlns:xhtml` declaration and does not reload the file. `reload_xml`, with its removal of BEL characters, and `get_path` are not part of this model.
- `write_xccdf_version` is modelled on the file's content. Reading and writing the file are left out.
- Logging: `logger_report.debug` calls are dropped. `log_message` calls in `ScanProgress` and `format_rules_to_table` are returned as values (`Scanning.LogCall`); in `replace_inplace_risk` they are dropped.
- Calls into code that is not part of this model are parameters:
  - `XccdfHelper.get_check_import_inplace_risks` is `risksOf`;
  - `XccdfHelper.get_inplace_risk` is `levelOf`;
  - `os.path.join` is `pathJoin`;
  - `xml_tags.GLOBAL_DIC_VALUES` is `globals`, a sequence of key/default pairs in dictionary iteration order;
  - `xml_tags.TAG_VALUE` is `tagValue`;
  - `settings.result_text.format(content)` is `header`.
- `settings.needs_inspection` and `settings.needs_action` are taken to be the strings `needs_inspection` and `needs_action`.
- ReportParsing.ReportParser.UpdateCheckDescription: where the source raises part-way, the document is left unchanged. The model does not capture the edits the source has already made in memory before the exception.
- ReportParsing.ReportParser.ModifyResultPath: the same.
- ReportParsing.ReportParser.ReplaceInplaceRisk: the same, for a raise during the walk. The document is then the cleaned document, not the partly reclassified one.
- ElementTree element identity and aliasing are not modelled. The tree is a value. `add_global_tags` finds the `Profile` with `_children.index(last_child)`; the model tracks the `Profile`'s position instead.
- `get_name_of_checks` builds the list of all matching rules and takes the first. The model searches for the first match, which gives the same title.
- `str.strip` is modelled for ASCII whitespace only.
- ReportGlobals.RunArgs: `devel_mode` is taken to be a boolean, so `str(devel_mode)` is `True` or `False`. A caller passing another kind of value is not modelled.
- The unused fields `changed_results` and `output_data` of `ReportParser` are not modelled. The `mode` argument of `modify_result_path` is accepted by `ReportParsing.ReportParser.ModifyResultPath` and, as in the source, unused.
- The helpers `filter_children`, `has_children`, `get_node`, `get_nodes`, `get_child`, `filter_grandchildren`, `remove_node`, `_get_all_rules`, `get_all_rule_results` and `get_all_results` are represented by the `ReportTree` searches. `get_all_results` itself is not used by any pass and is not part of this model.
- Where the code and its docstring (preupg/report_parser.py:151-157) or its comment (preup/scanning.py:44-46) disagree, the model follows the code:
  - a risk level other than 0 or 1 leaves the result `fail`;
  - `format_rules_to_table` raises on a row with fewer than three fields. Only rows that have three fields in the width computation but not exactly three when split again are logged as errors.
