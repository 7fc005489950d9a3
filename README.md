# Mod merger text engine, in Dafny

This project models the text-merging core of `mod_merger.py`, a tool that
merges several game mods into one package. Two kinds of content are merged:

- Each mod may carry its own `player_variables.scr`, a file of declarations
  such as `Param("Stamina", 100);`. The merger parses the base game's copy
  and each mod's copy. For every key it collects the values that differ from
  the base, resolves conflicts in ascending key order, and patches the base
  lines:
  - a key the base declares has its last declaring line overwritten;
  - a new key has its line inserted before the last line (after the first)
    that contains `}`, or appended at the end.
- Every other archive member, except directories and nested archives, is
  recorded per path, one candidate per occurrence. A member whose read fails
  ends that archive's loop, and its path keeps the list created for it, which
  may be empty. Paths with several candidates are resolved the same way as
  parameter keys.

The modules follow the program's steps:

| module | file | models |
|---|---|---|
| `Text` | text.dfy | `str.isspace`, `str.strip()`, lower-casing for suffix tests, `str.endswith` |
| `KeyOrder` | key_order.dfy | the order of Python's `sorted` on strings, and sorting a key set |
| `ParamLine` | param_line.dfy | `get_param_key`: a matcher for `^\s*Param\s*\(\s*"([^"]+)"` over characters, and the pattern as a predicate |
| `ParamSet` | param_set.dfy | `parse_params` |
| `Records` | records.dfy | candidates `{source, value}` and entries of insertion-ordered dicts |
| `Conflicts` | conflicts.dfy | the aggregation loop building `changes_map` |
| `Resolution` | resolution.dfy | the resolution loop with its retry prompt, shared by parameters and files |
| `Analysis` | analysis.dfy | `analyze_and_resolve_player_vars` as a whole |
| `FileMerger` | file_merger.dfy | the line patching of `apply_changes_and_archive` |
| `AuxFiles` | aux_files.dfy | the `other_files_map` registry of `process_archive_content`, and `resolve_other_files` |

How the source is represented:

- **Loops.** Each loop of the source is a `method` proved equal to a function
  of its inputs: `ParseParams`, `MergeModParams`, `AggregateChanges`,
  `ResolveConflicts`, `AskChoice`, `ApplyChanges` and its steps, and
  `ProcessArchiveContent`. The lemmas state what those functions promise.
- **Collections.** Python lists are sequences and dicts are maps. The ordered
  dicts `final_changes` and `final_other_files` are sequences of entries in
  insertion order.
- **Input.** The interactive prompt is a sequence of replies. A reply is
  either a number or text that `int()` rejects. If the replies run out while a
  conflict is open, the result is `Failure(EndOfInput(key))`, which is what
  `EOFError` escaping `input()` does.
- **Global registry.** The global `other_files_map` is an explicit registry
  passed in and returned.

Two behaviours of the code that are easy to misread:

- The insertion point is any line at index 1 or more that contains `}`
  anywhere. The first line is never examined.
- Additional files are never deduplicated, not even by source. Every member
  read successfully adds a candidate.

## Model

| member | source | states |
|---|---|---|
| Text.SkipSpace | mod_merger.py:138 | the greedy `\s*`: stops at the first non-whitespace index, with only whitespace skipped |
| Text.TrimEndIndex | mod_merger.py:236 | the end index that `strip()` keeps: only whitespace after it, a non-space just before it |
| Text.IsSpace | mod_merger.py:138 | the class of `\s` and of `strip()`: the characters Python's `str.isspace` accepts; what it means for a scan is stated by `Text.SkipSpace`, `Text.TrimEndIndex` and `Text.Strip` |
| Text.Strip | mod_merger.py:236 | `line.strip()` is a slice of the line with only whitespace cut from either end, and begins and ends with non-whitespace |
| Text.LowerChar | mod_merger.py:152 | ASCII capitals go to their lower case; other ASCII characters are kept |
| Text.EndsWithLower | mod_merger.py:152 | `s.lower().endswith(suffix)` for a lower-case ASCII suffix holds exactly when each of the last characters of `s` is the suffix's character, its capital, or the Kelvin sign for `k` |
| Text.LowerCharMatch | mod_merger.py:152 | a character lower-cases to a lower-case ASCII character exactly when it is that character, its capital, or the Kelvin sign for `k` |
| KeyOrder.Less | mod_merger.py:268 | `a < b` on Python strings, code point by code point with a proper prefix first; a strict total order by `KeyOrder.LessIrreflexive`, `KeyOrder.LessTransitive` and `KeyOrder.LessTotal` |
| KeyOrder.LessIrreflexive | mod_merger.py:268 | no string sorts before itself |
| KeyOrder.LessTransitive | mod_merger.py:268 | string order is transitive |
| KeyOrder.LessTotal | mod_merger.py:268 | any two distinct strings are ordered one way |
| KeyOrder.LessAsymmetric | mod_merger.py:268 | string order is asymmetric |
| KeyOrder.LeastExists | mod_merger.py:268 | a non-empty key set has a least key |
| KeyOrder.SortedOf | mod_merger.py:268 | `sorted(keys)` is strictly ascending and holds exactly the keys |
| KeyOrder.SortedUnique | mod_merger.py:268 | the ascending listing of a key set is unique |
| KeyOrder.SortKeys | mod_merger.py:268 | the sorting loop computes that ascending listing |
| ParamLine.GetParamKey | mod_merger.py:137-139 | `get_param_key`; it returns exactly the capture of the pattern, and `None` exactly when the pattern does not match, by `ParamLine.GetParamKeyIsPattern` |
| ParamLine.SkipKeyChars | mod_merger.py:138 | the greedy `[^"]+` run stops at the first quote, with no quote before it |
| ParamLine.ParamAtSlice | mod_merger.py:138 | the character test for `Param` is the literal `Param` at that index |
| ParamLine.GetParamKeyIsScan | mod_merger.py:137-139 | the character matcher equals the matcher written with greedy scans |
| ParamLine.GetParamKeySound | mod_merger.py:137-139 | a returned key is captured by the pattern on that line |
| ParamLine.ScanKeySound | mod_merger.py:137-139 | a key found by the scans is captured by the pattern |
| ParamLine.PartsMatch | mod_merger.py:138 | the positions the scans stop at form a match of the pattern |
| ParamLine.MatchesAtScans | mod_merger.py:138 | a match's parts sit exactly where the greedy scans stop, so the match is unique |
| ParamLine.ScanKeyAt | mod_merger.py:137-139 | the scans at a match's positions return its capture |
| ParamLine.GetParamKeyAt | mod_merger.py:137-139 | the matcher at a match's positions returns its capture |
| ParamLine.GetParamKeyComplete | mod_merger.py:137-139 | a key the pattern captures is the one `get_param_key` returns |
| ParamLine.GetParamKeyIsPattern | mod_merger.py:137-139 | `Some(key)` exactly when the pattern matches with capture `key`, `None` exactly when it does not match |
| ParamLine.GetParamKeyShape | mod_merger.py:138-139 | a returned key is non-empty and holds no `"` |
| ParamSet.ParamsOf | mod_merger.py:231-237 | the parameter set of a file; its keys and values are stated by `ParamSet.ParamsOfKeys`, `ParamSet.ParamsOfLastWins` and `ParamSet.ParamsOfValues` |
| ParamSet.ParseParams | mod_merger.py:231-237 | the loop computes the line-by-line parameter set |
| ParamSet.ParamsOfKeys | mod_merger.py:233-236 | a key is in the set exactly when some line declares it |
| ParamSet.ParamsOfLastWins | mod_merger.py:233-236 | a key's value is the stripped text of the last line declaring it |
| ParamSet.ParamsOfValues | mod_merger.py:233-236 | every key in the set has a last declaring line whose stripped text is its value |
| Conflicts.StepOn | mod_merger.py:255-261 | `changes_map` after some keys of one mod; one key at a time by `Conflicts.StepOnVisit` |
| Conflicts.Aggregate | mod_merger.py:247-261 | `changes_map` after all mods; equal to the first occurrences of the proposals by `Conflicts.AggregateIsFirstProposals`, its keys and lists by `Conflicts.AggregateKeys` and `Conflicts.AggregateLists` |
| Conflicts.MergeValue | mod_merger.py:256-261 | one key: the list is extended with a new value only when it differs from the base and is not yet listed |
| Conflicts.StepOnVisit | mod_merger.py:255-261 | visiting one more key changes at most that key's list |
| Conflicts.MergeStep | mod_merger.py:255-261 | one iteration of the inner loop on the function describing it |
| Conflicts.MergeModParams | mod_merger.py:255-261 | the inner loop merges every key of one mod, in any visiting order |
| Conflicts.AggregateStep | mod_merger.py:247-261 | one iteration of the outer loop over the mods |
| Conflicts.AggregateChanges | mod_merger.py:247-261 | the loop over mods in the given order computes the aggregate |
| Conflicts.FirstIndex | mod_merger.py:260 | the first candidate holding a value |
| Conflicts.FirstOccurrencesValues | mod_merger.py:260-261 | dropping repeated values keeps every value exactly once |
| Conflicts.FirstOccurrencesFirst | mod_merger.py:258-261 | each kept candidate is the first with its value, in order of first appearance |
| Conflicts.FirstOccurrencesSpec | mod_merger.py:258-261 | those properties together |
| Conflicts.AggregateIsFirstProposals | mod_merger.py:247-261 | a key is recorded exactly when some mod proposes a change, and its list is the first occurrence of each proposed value in mod order |
| Conflicts.ProposalsSpec | mod_merger.py:255-257 | every proposal differs from the base and comes from a mod declaring that value |
| Conflicts.ProposalIncluded | mod_merger.py:255-261 | every changing mod's value is among the proposals |
| Conflicts.AggregateKeys | mod_merger.py:255-259 | recorded keys are exactly those some mod changes; a key the base lacks is recorded once any mod declares it |
| Conflicts.AggregateLists | mod_merger.py:258-261 | each list is non-empty, its values are pairwise distinct, none equals the base value, and it holds every proposed value |
| Resolution.Choose | mod_merger.py:276-286 | the retry loop reads at least one and at most all replies |
| Resolution.ChooseSpec | mod_merger.py:276-286 | gives up only when no reply is in range; otherwise reads up to the first reply `n` with `1 <= n <= len` and takes candidate `n - 1`, rejecting every earlier reply |
| Resolution.Decide | mod_merger.py:269-286 | the decision for one key; stated by `Resolution.DecideSpec` |
| Resolution.DecideSpec | mod_merger.py:269-286 | a decided value is a candidate, a single candidate is taken without reading, and only a conflict can run out of replies |
| Resolution.ResolveFrom | mod_merger.py:268-288 | resolution of a list of keys; successes by `Resolution.ResolveFromSuccess` and `Resolution.ResolveFromRest`, failures by `Resolution.ResolveFromFailure` |
| Resolution.ResolveFromDecide | mod_merger.py:268-286 | resolution is the first key's decision followed by the rest |
| Resolution.AskChoice | mod_merger.py:276-286 | the prompt loop computes the retry loop's choice and the replies it read |
| Resolution.ResolveSingle | mod_merger.py:269-271 | a single-candidate key takes its candidate and reads nothing |
| Resolution.ResolveNoChoice | mod_merger.py:276-286 | a conflict with no accepted reply stops resolution at that key |
| Resolution.ResolveChosen | mod_merger.py:276-282 | a conflict takes the accepted candidate and resolution continues after that reply |
| Resolution.ResolveConflicts | mod_merger.py:268-288 | the loop over keys in ascending order computes the resolution |
| Resolution.ResolveFromHead | mod_merger.py:268-282 | a successful resolution starts with the first key's decided value |
| Resolution.ResolveFromSuccess | mod_merger.py:268-288 | one entry per key in key order, each one of its key's candidates, a single candidate taken as is |
| Resolution.ResolveFromRest | mod_merger.py:276-282 | the replies left unread are a suffix of the replies |
| Resolution.ResolveFromNoConflict | mod_merger.py:268-271 | with no conflicts resolution succeeds and reads no reply |
| Resolution.ResolveFromFailure | mod_merger.py:268-286 | resolution fails only on a conflicting key `ks[i]`, reached once the keys before it resolved and left replies `rest`, none of which is a number from 1 to that key's candidate count (`Resolution.RanOut`) |
| Resolution.ResolveFromEmptyFails | mod_merger.py:306-316 | a key with no candidate can never be resolved: no reply is in range `1..0`, so resolution fails |
| Analysis.AnalyzeAndResolve | mod_merger.py:239-288 | parse, aggregate and resolve in ascending key order |
| Analysis.AnalysisKeys | mod_merger.py:255-288 | the result lists, in strictly ascending order, exactly the keys some mod changes |
| Analysis.AnalysisValues | mod_merger.py:255-288 | each result value is proposed by some mod for its key and differs from the base; an uncontested key takes its only value |
| Analysis.AnalysisFailure | mod_merger.py:268-286 | an analysis stops only on a key with at least two distinct proposed values |
| Analysis.AnalysisUncontested | mod_merger.py:247-271 | when no two mods propose different values for one key, the analysis succeeds without reading a reply |
| Analysis.AggregateProposed | mod_merger.py:247-261 | every candidate recorded for a key is a value some mod proposes for it |
| Analysis.AnalysisNoChanges | mod_merger.py:263-266 | with no mod changing anything (also with no mods) the result is empty |
| FileMerger.KeyIndex | mod_merger.py:17 | `base_params_map` maps each declared key to its last declaring line, and undeclared keys to nothing |
| FileMerger.Lookup | mod_merger.py:22-25 | the value the assignments leave for a key; stated by `FileMerger.LookupSpec` |
| FileMerger.Replaced | mod_merger.py:16-25 | replacement keeps the number of lines |
| FileMerger.NewPositions | mod_merger.py:26-28 | the positions of entries whose key the base lacks: ascending, all of them, no other |
| FileMerger.Scan | mod_merger.py:35-38 | the backwards scan finds the last line at index 1 or more containing `}`, or reports that none does |
| FileMerger.InsertionPoint | mod_merger.py:34-38 | `insertion_point`: the last line at index 1 or more containing `}`, or none when no line from index 1 on contains one |
| FileMerger.MergeLines | mod_merger.py:16-48 | the patched lines; stated by `FileMerger.MergeLinesShape`, `FileMerger.ReplacedSpec`, `FileMerger.MergeLinesEmpty` and `FileMerger.MergeLinesContainsAll` |
| FileMerger.ReplaceExisting | mod_merger.py:22-28 | the replacement loop computes the replaced lines and the new values in entry order |
| FileMerger.FindInsertionPoint | mod_merger.py:34-38 | the scan loop with `break` computes the insertion point |
| FileMerger.InsertBefore | mod_merger.py:40-43 | inserting in reverse at one index places the new lines there in their own order |
| FileMerger.AppendAll | mod_merger.py:44-48 | the fallback appends the new lines in order |
| FileMerger.ApplyChanges | mod_merger.py:16-48 | the patching steps compute the patched lines |
| FileMerger.LookupStep | mod_merger.py:22-25 | a later entry overrides earlier ones for its own key only |
| FileMerger.ReplaceStepAt | mod_merger.py:22-25 | one iteration overwrites only the indexed line of its key |
| FileMerger.NewValuesStep | mod_merger.py:26-28 | one iteration collects its value only when the base lacks the key |
| FileMerger.KeyIndexKeys | mod_merger.py:17 | the line index and the parameter set have the same keys |
| FileMerger.KeyIndexLast | mod_merger.py:17 | a key is indexed at a line exactly when that line is its last declaration |
| FileMerger.LookupSpec | mod_merger.py:22-24 | a key is found exactly when some entry has it, and with distinct keys that entry's value is found |
| FileMerger.MergeLinesEmpty | mod_merger.py:16-31 | no changes give back the base lines |
| FileMerger.ReplacedSpec | mod_merger.py:17-25 | only the last declaring line of a changed key is overwritten with its indented value; every other line is kept |
| FileMerger.NewValuesAt | mod_merger.py:26-28 | the collected new values are the values at the new positions, in order |
| FileMerger.MergeLinesShape | mod_merger.py:17-48 | length is base plus new keys; the new lines form one block in entry order just before the last `}` line at index 1 or more, which follows unchanged, with the lines around kept; failing that, the block is appended |
| FileMerger.MergeLinesContainsAll | mod_merger.py:22-48 | every chosen value appears as an indented line of the result |
| FileMerger.BraceOnFirstLineIgnored | mod_merger.py:35-48 | a `}` only on line 0 is not seen, so a new parameter is appended after it |
| AuxFiles.NormalizePath | mod_merger.py:150 | every backslash becomes `/` and nothing else changes, so the result has no backslash and a path without one is kept as it is |
| AuxFiles.BaseStart | mod_merger.py:162 | the basename starts just after the last `/` |
| AuxFiles.StagedPath | mod_merger.py:162-163 | `os.path.join(TEMP_DIR, f"{source}_{basename}")` with `/` as separator, the basename starting after the last `/` by `AuxFiles.BaseStart` |
| AuxFiles.IsPlayerVars | mod_merger.py:152 | ends in `player_variables.scr` ignoring case, by `AuxFiles.MemberKinds` |
| AuxFiles.IsArchive | mod_merger.py:159 | ends in `.zip`, `.pak` or `.7z` ignoring case, by `AuxFiles.MemberKinds` |
| AuxFiles.MemberKinds | mod_merger.py:152-159 | the lower-cased suffix tests are case-insensitive suffix tests for `player_variables.scr` and for `.zip`, `.pak`, `.7z` |
| AuxFiles.Register | mod_merger.py:158-166 | one member: the path's list is created if missing and extended unless the read fails; stated over many members by `AuxFiles.RegisterAllAppends` and `AuxFiles.RegisterAllKeys` |
| AuxFiles.RegisterAll | mod_merger.py:146-166 | the registry after members in listing order; stated by `AuxFiles.RegisterAllAppends` and `AuxFiles.RegisterAllKeys` |
| AuxFiles.ProcessMember | mod_merger.py:147-166 | one member: directories skipped, a parameter file reported, nested archives skipped, anything else registered; a failed read of a parameter file or registered member is reported as failure |
| AuxFiles.ProcessStep | mod_merger.py:146-166 | one more member extends the registry and the parameter-file search by that member |
| AuxFiles.ProcessArchiveContent | mod_merger.py:146-166 | with no failing read: the registry after all members, and a parameter file reported exactly when some member is one; with one: the loop ends, with the members up to and including the first failing one registered |
| AuxFiles.RegisterAllAppends | mod_merger.py:158-166 | registration only appends: one candidate per member with that path that reads successfully, no deduplication |
| AuxFiles.RegisterAllKeys | mod_merger.py:150-166 | the registry gains exactly the paths of registered members, a failed read included, none a parameter file or nested archive |
| AuxFiles.SamePathTwoMods | mod_merger.py:158-166 | the same path in two mods gives two candidates, so resolution asks and stops when no reply is left |
| AuxFiles.FailedReadNeverResolves | mod_merger.py:160-166 | a failed read of a new path leaves it with an empty list, after which resolution of the registry can only fail |
| AuxFiles.ResolveOtherFilesSpec | mod_merger.py:298-317 | every registered path exactly once in ascending order, mapped to one of its own staged files; a single file taken as is |

## Left out

- Archive input and output go through `zipfile`, `py7zr` and `BytesIO`. That
  covers opening archives, unwrapping nested `.pak` archives, reading member
  bytes and writing the final archive (the end of `apply_changes_and_archive`).
  None of these are modelled. An archive is its member listing, in listing
  order.
- Filesystem side effects are not modelled: directory setup, staging members
  into the temp directory, copying, removing and cleaning up. The staged path
  of a member is computed, but nothing is written to it.
- Parameter-file members are reported, not staged. The `player_variables.scr`
  member a mod carries is only reported by `ProcessArchiveContent`. Its
  temp-file name (display name plus marker) and how the display name is read
  back are not modelled. Mods are given as (display name, lines) in a fixed
  order instead of the `os.listdir` order.
- Text decoding is not modelled: UTF-8 with `errors='ignore'`, `readlines`,
  `splitlines`, and joining the output lines into one string. Files are given
  as sequences of lines.
- Parsing of typed replies is not modelled: `int()` is left out, and a reply
  is already a number or a rejection.
- All printed output, `main`'s exception handling, and the final prompt before
  exit are left out.
- The retry prompt does not loop forever. It ends when the finite reply
  sequence is used up, and the model reports that as a failure on the open
  key.
- `Text.Lower` applies only the lower-casing rules that can change whether a
  name ends in an ASCII suffix (ASCII capitals and the Kelvin sign). It is not
  full Unicode lower-casing.
- `AuxFiles.StagedPath` joins with `/` and takes the basename after the last
  `/`, as POSIX `os.path` does. Another platform's separator rules are not
  modelled.
- Two members of one mod with the same basename but different directories are
  staged to the same temp file, so the later one overwrites the earlier. The
  model records two candidates with the same staged path but does not model the
  overwritten file content.
- The model does not capture in-place mutation or aliasing. Lists the source
  mutates in place are sequence values that the methods reassign.
- The exception a failed read raises is caught per mod by `extract_mods`.
  That handler is not modelled: a failure is the `None` result of
  `AuxFiles.ProcessArchiveContent`, and what the caller then skips (the
  archive's root after a failing nested `.pak`, the staged parameter file) is
  not modelled.
- `extract_mods`, `setup_directories`, `load_base_file_from_pak` and `cleanup`
  are not part of this model.
