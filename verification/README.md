# whistle log-verdict core, modelled in Dafny

whistle watches systemd journal output and decides, line by line, whether an
entry is an anomaly. This project models the decision logic of its command
line tool:

- `analyze_log` (whistle/llm.py): the ordered scan of the configured ignore
  rules, where the first rule whose regular expression is found in the entry
  makes it benign and is named in the reason, followed by the mock keyword
  check (`error` / `failed`, case-insensitive) and the fixed default verdict;
- the pure cores of the commands in whistle/__main__.py: `config llm`,
  `config alert` and `config log` (update only the supplied options),
  `ignore list` (formatting) and `ignore add` (name-unique append), the
  `journalctl` argument lists of `monitor` and `analyze`, the gathering of
  entries from command outputs, the `analyze` counting loop and the
  per-line step of `monitor`.

Regular-expression search is not interpreted: every operation that consults
a rule takes `search: (string, string) -> bool`, standing for
`re.search(regex, entry)` finding a match, so each property holds for any
regex engine. Running `journalctl`, reading and writing the configuration
file and printing are the caller's business: command results, the loaded
configuration and the stream's lines are parameters.

Modules, one per concern: `Wrappers` (Option, Result), `Text` (ASCII
lower-casing, substring search, `str.strip()`, `str.split('\n')`),
`Settings` (the configuration record and `DEFAULT_CONFIG`), `Llm`
(`analyze_log`), `ConfigCommands`, `IgnoreCommands`, `Journal` (command
lines) and `Pipeline` (the `analyze` and `monitor` loops).

Notes on the code as modelled:

- Rule records carry `name`, `regex` and an optional `comment`. Order in the
  rule list matters only for which rule a benign verdict names; whether an
  entry is an anomaly does not depend on it (`Llm.AnomalyIgnoresRuleOrder`).
- Both `analyze` and `monitor` apply the ignore rules through `analyze_log`,
  so retrospective and live analysis suppress identically; `monitor` strips
  each line first while `analyze` skips only empty entries
  (`Pipeline.MonitorAgreesWithAnalyze`).
- The classifier in this code is a keyword mock: there is no learning of new
  rules from classifier suggestions, no truncation of long entries, no
  "not configured" verdict and no fail-safe verdict on classifier errors.
- `ignore add` indexes `conf['ignore']` directly, so a configuration file
  without that key makes it fail; this is the `MissingIgnoreList` error.
- `analyze`'s guard only recognises "no entries" and "one empty entry". Two
  successful commands with blank (whitespace-only) output give two empty entries: the command
  reports two entries found and then analyses none of them
  (`Pipeline.TwoBlankOutputsPassGuard`).

## Model

| member | source | states |
|---|---|---|
| `Llm.AnalyzeLog` | whistle/llm.py:3-32 | Total: every path yields a verdict with a non-empty reason; the entry is an anomaly iff no ignore rule matches and the keyword check fires; when rule i is the first match the verdict is benign with reason "Ignored by rule '<name of rule i>'"; with no matching rule (or no `ignore` key) the keyword/default verdict is returned |
| `Llm.FirstMatch` | whistle/llm.py:15-21 | The scan stops at a position whose rule matches and before which no rule matches; when it finds nothing, no rule of the list matches |
| `Llm.FirstMatchFindsAny` | whistle/llm.py:16-17 | The scan stops somewhere exactly when some rule of the list, wherever it stands, matches |
| `Llm.ReasonNamesFirstMatch` | whistle/llm.py:16-21 | The reason names a rule iff a rule suppressed the entry, and the rule it names is the first matching one in list order |
| `Llm.IgnoredReason` | whistle/llm.py:20 | The suppression reason is "Ignored by rule '", then exactly the rule's name, then a closing quote |
| `Llm.AttributionRoundTrip` | whistle/llm.py:18-31 | The rule name can be read back out of an "Ignored by rule" reason; the two fixed keyword-check reasons name no rule |
| `Llm.HasKeyword` | whistle/llm.py:23 | The lower-cased entry contains "error" or "failed" iff one of them occurs in it at some position |
| `Llm.KeywordVerdict` | whistle/llm.py:23-32 | Without a rule match: anomaly iff the keyword check fires; an anomaly carries the fixed keyword reason and a benign verdict carries "Not an anomaly (mock analysis)." |
| `Llm.KeywordIff` | whistle/llm.py:23 | The keyword check fires iff "error" or "failed" occurs in the entry in some capitalisation at some position |
| `Llm.KeywordCaseInsensitive` | whistle/llm.py:23 | Any capitalisation of "error" or "failed" in the entry ("ERROR", "Failed") makes the check fire |
| `Llm.KeywordEntryVerdict` | whistle/llm.py:14-27 | An entry mentioning a keyword is an anomaly with the fixed keyword reason unless a rule matches, in which case the rule takes precedence and it is benign |
| `Llm.NoIgnoreKey` | whistle/llm.py:15 | Without an `ignore` key no rule is checked: the verdict equals that of an empty rule list and the keyword/default decision alone |
| `Llm.LaterRulesNeverConsulted` | whistle/llm.py:15-21 | Rules after the first match, and every configuration section other than `ignore`, do not affect the verdict |
| `Llm.AnomalyIgnoresRuleOrder` | whistle/llm.py:16-21 | Reordering the rule list never changes whether an entry is an anomaly |
| `Llm.AppendedRuleOnlySuppresses` | whistle/llm.py:16-27 | Appending a rule leaves the verdict unchanged when an earlier rule matches or the new one does not; when only the new rule matches, the entry becomes benign under the new rule's name |
| `Llm.DefaultConfigUsesKeywordsOnly` | whistle/config.py:8-22 | Under the initial configuration (empty rule list) only the keyword decision is taken |
| `Text.ToLower` | whistle/llm.py:23 | ASCII lower-casing, the part of `.lower()` the keyword check depends on: the length is kept and each character is lowered on its own, ASCII capitals to small letters and every other character unchanged |
| `Text.Contains` | whistle/llm.py:23 | The substring test `p in s` never holds for a word longer than the text and always holds for the empty word |
| `Text.ContainsIff` | whistle/llm.py:23 | The scanning substring test holds iff the word occurs at some position of the text |
| `Text.ContainsToLower` | whistle/llm.py:23 | An occurrence survives lower-casing of both text and word |
| `Text.Strip` | whistle/__main__.py:273 | The stripped text is no longer than the input and neither starts nor ends with whitespace |
| `Text.StripShape` | whistle/__main__.py:273 | Stripping returns a slice of the line whose removed ends are all whitespace and whose own ends are not |
| `Text.StripEmptyIff` | whistle/__main__.py:273-275 | A line strips to nothing iff it is all whitespace |
| `Text.SplitJoin` | whistle/__main__.py:208 | Splitting the output on newlines loses nothing: joining the pieces with newlines gives it back |
| `Text.Split` | whistle/__main__.py:208 | Splitting yields at least one piece and no piece holds the separator |
| `ConfigCommands.ConfigLlm` | whistle/__main__.py:40-49 | Each of base URL, API key and model is replaced iff the option was given (an empty string counts); the other sections are unchanged |
| `ConfigCommands.ConfigLlmComposes` | whistle/__main__.py:43-48 | Two runs equal one run where each later option wins; a run with no options changes nothing; repeating a run is idempotent |
| `ConfigCommands.ConfigAlert` | whistle/__main__.py:54-59 | The Slack webhook is replaced iff given; with no option the configuration is unchanged |
| `ConfigCommands.ConfigLog` | whistle/__main__.py:65-72 | `kernel_only` is replaced iff given; the unit list is replaced iff at least one unit is given, and otherwise kept as stored; other sections are unchanged |
| `ConfigCommands.ConfigLogNeverClearsUnits` | whistle/__main__.py:70-71 | After the command the unit list is empty iff it was empty before and no unit was given |
| `IgnoreCommands.IgnoreList` | whistle/__main__.py:94-103 | Absent or empty rule list: the single "No ignore rules defined." line; otherwise one formatted line per rule in stored order |
| `IgnoreCommands.FormatRule` | whistle/__main__.py:102-103 | A listing line begins with `- ` followed by the rule's name |
| `IgnoreCommands.FormatRuleShape` | whistle/__main__.py:102-103 | A listing line starts with `- <name>: '<regex>'` and ends with `)` iff a non-empty comment is shown; without one it is exactly that head; with one, ` (` follows the head and the comment text reads back from between it and the final `)` |
| `IgnoreCommands.NewRule` | whistle/__main__.py:117-119 | The new rule carries the given name and regex, and a comment iff the supplied comment is non-empty |
| `IgnoreCommands.IgnoreAdd` | whistle/__main__.py:109-123 | Fails without an `ignore` key, fails with DuplicateName iff the name is taken, otherwise succeeds; success keeps all earlier rules and other sections and appends exactly the new rule at the end |
| `IgnoreCommands.DefaultConfigFirstAdd` | whistle/config.py:8-22 | The initial configuration lists no rules, and the first add to it succeeds, giving a one-rule list whose listing is that rule's line |
| `IgnoreCommands.IgnoreAddKeepsNamesUnique` | whistle/__main__.py:113-121 | A successful add preserves name uniqueness of the rule list |
| `IgnoreCommands.DuplicateRegexAccepted` | whistle/__main__.py:113-121 | Only names are checked: a new name with an already-used regex is accepted and the list then holds two rules with that regex |
| `IgnoreCommands.IgnoreAddExtendsListing` | whistle/__main__.py:97-121 | After an add the listing is the old one plus the new rule's line (or just that line when the list was empty) |
| `IgnoreCommands.AddedRuleSuppresses` | whistle/__main__.py:117-121 | After an add every entry the new regex matches is benign, previously suppressed entries keep their verdict, unmatched entries are unaffected, and newly suppressed ones name the new rule |
| `Journal.Sources` | whistle/__main__.py:203-213 | The kernel is selected iff `kernel_only`, first; then every configured unit in order (an absent key counts as no units) |
| `Journal.UnitArgs` | whistle/__main__.py:263-264 | Two options per unit; unit i of the list sits right after its own `-u`, at positions 2i and 2i+1 |
| `Journal.UnitArgsRoundTrip` | whistle/__main__.py:263-264 | Reading the `-u` options back gives exactly the configured units |
| `Journal.MonitorCommand` | whistle/__main__.py:260-264 | `journalctl -f --no-pager`, then `-k` iff `kernel_only`, then options from which exactly the configured units read back, in order |
| `Journal.AnalyzeCommand` | whistle/__main__.py:204-213 | The command for one source is `journalctl --since <since> --no-pager` followed by `-k` exactly for the kernel, or by `-u <unit>` for a unit |
| `Journal.AnalyzeCommands` | whistle/__main__.py:203-213 | One `journalctl --since <since> --no-pager -k` command iff `kernel_only`, then one `... -u <unit>` command per unit in order |
| `Journal.DefaultConfigWatchesKernel` | whistle/config.py:8-22 | Under the initial configuration both commands select the kernel ring and no unit: `analyze` runs one `-k` command and `monitor` follows `journalctl -f --no-pager -k` |
| `Journal.MonitorFollowsAllSources` | whistle/__main__.py:260-264 | The monitor command passes the options of exactly the sources `analyze` runs one command each for, in the same order |
| `Pipeline.OutputEntries` | whistle/__main__.py:206-217 | A failed run contributes nothing; a successful one contributes at least one newline-free entry, the entries joined by newlines are its stripped output, and a stripped output without a newline is one entry |
| `Pipeline.CollectEntries` | whistle/__main__.py:201-219 | No entries are gathered iff no command succeeded |
| `Pipeline.CollectEntriesAppend` | whistle/__main__.py:203-219 | Entries are gathered in command order: the entries of two groups of runs are the first group's followed by the second's |
| `Pipeline.CollectEntriesSingle` | whistle/__main__.py:208 | One run contributes exactly its own entries |
| `Pipeline.NothingFound` | whistle/__main__.py:221 | The guard stops the command only when every gathered entry is empty |
| `Pipeline.BlankOutputIsNothingFound` | whistle/__main__.py:221-223 | One successful run with whitespace-only output yields the single empty entry the guard recognises |
| `Pipeline.TwoBlankOutputsPassGuard` | whistle/__main__.py:221-225 | Two successful runs with whitespace-only output give two empty entries, which pass the guard and produce no anomaly |
| `Pipeline.Step` | whistle/__main__.py:228-232 | An entry yields a report iff it is non-empty and its verdict is an anomaly, and then the report carries the verdict's reason |
| `Pipeline.Flagged` | whistle/__main__.py:227-232 | Every report is a non-empty entry of the list whose verdict is an anomaly with that reason; there are never more reports than non-empty entries |
| `Pipeline.FlaggedComplete` | whistle/__main__.py:228-232 | Every non-empty entry with an anomalous verdict is reported |
| `Pipeline.FlaggedCountsAnomalies` | whistle/__main__.py:228-232 | There is exactly one report per non-empty entry whose verdict is an anomaly |
| `Pipeline.BlankEntriesIgnored` | whistle/__main__.py:229 | Inserting an empty entry anywhere changes no report |
| `Pipeline.Analyze` | whistle/__main__.py:221-232 | Stops early iff the entries are none or the single empty one; otherwise reports the number found, and `num_anomalies` equals both the number of reported anomalies and the number of non-empty entries whose verdict is an anomaly, which are exactly the flagged entries in order and bounded by the non-empty entries |
| `Pipeline.MonitorLine` | whistle/__main__.py:272-284 | A line is skipped iff it is all whitespace; it raises an alert iff its stripped text is non-empty and anomalous, and the alert carries the stripped entry and the verdict's reason |
| `Pipeline.LineAlerts` | whistle/__main__.py:273-282 | One line raises at most one alert, and an alert reports a non-empty entry whose verdict is an anomaly, with that verdict's reason |
| `Pipeline.MonitorAlerts` | whistle/__main__.py:272-284 | Over a stream, at most one alert per line, each for a non-empty entry whose verdict is an anomaly, with that verdict's reason |
| `Pipeline.MonitorAgreesWithAnalyze` | whistle/__main__.py:272-284 | Over a whole stream, monitor alerts on exactly the anomalies `analyze` would report for the stripped lines, in the same order |

## Left out

- Running `journalctl` (`subprocess.run`, `Popen`), reading the stream line by line and terminating the process (whistle/__main__.py:206-219, 270-294): operating-system I/O; their results are parameters (`CommandResult`, lines).
- `service install` (whistle/__main__.py:131-189): root check, files under /etc and `systemctl`, all system side effects.
- The `test` command (whistle/__main__.py:76-85): it only prints the configuration.
- whistle/config.py apart from `DEFAULT_CONFIG`: path resolution, JSON load and save, directory creation are file I/O.
- Configurations lacking a section the record always has: the source raises on a missing `llm` section only when `config llm` is given an option (whistle/__main__.py:43-48), on a missing `alert` section only when `config alert` is given `--slack` (whistle/__main__.py:57), on a missing `log` section in `config log` when an option is given (whistle/__main__.py:68-71), and on a missing `log` section or `kernel_only` key in `analyze` and `monitor` (whistle/__main__.py:203, 261); `analyze_log` reads none of them. The model's record always has these sections, so none of these errors is modelled.
- whistle/alert.py: a Slack webhook POST over the network.
- whistle/test_cases.py: expectations for a real language model, not for the keyword mock modelled here.
- Regular-expression semantics: `search` is an arbitrary function; an invalid regex that makes `re.search` raise is not modelled.
- Terminal output, colours and the exit status of aborted commands: an abort is a `Failure` value.
- `analyze_log` not modifying the configuration has no member of its own: the model is a pure function, so the configuration cannot change.
- Text.ToLower: lowers ASCII capitals only. Python's `str.lower()` lowers every Unicode capital (`'Ä'` to `'ä'`) and turns U+0130 into two characters, so it does not always keep the length. Only the keyword decision depends on it, and that decision agrees (next line).
- Llm.HasKeyword: lower-cases ASCII letters only, while Python's `str.lower()` folds all of Unicode. The non-ASCII characters whose Python lower-case form contains an ASCII letter (U+0130, lowering to `i` plus a combining dot, and U+212A KELVIN SIGN, lowering to `k`) cannot complete "error" or "failed", so the decision is expected to agree, but full Unicode case mapping is not modelled.
- Rules whose fields are not strings, and non-boolean `kernel_only` values read from a hand-edited file (Python truthiness), are not modelled.
