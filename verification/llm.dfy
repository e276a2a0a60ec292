/** The per-entry verdict of the log analyser (whistle/llm.py): the ignore
    rules are scanned in order and the first one whose regular expression
    is found in the entry suppresses it; otherwise a case-insensitive check
    for "error" or "failed" decides. */
module Llm {
  import opened Wrappers
  import opened Text
  import opened Settings

  /** `search(regex, entry)` holds when `re.search(regex, entry)` finds a
      match. Regular-expression semantics are not modelled: the function is
      a parameter, so every property below holds for every regex engine. */
  type RegexSearch = (string, string) -> bool

  /** The record `analyze_log` returns: `is_anomaly` and `reason`. */
  datatype Verdict = Verdict(isAnomaly: bool, reason: string)

  const KeywordReason: string := "Log entry contains \"error\" or \"failed\" (mock analysis)."
  const DefaultReason: string := "Not an anomaly (mock analysis)."
  const IgnoredPrefix: string := "Ignored by rule '"

  /** The reason given when the rule called `name` suppresses an entry. */
  function IgnoredReason(name: string): (r: string)
    ensures |r| == |IgnoredPrefix| + |name| + 1
    ensures r[..|IgnoredPrefix|] == IgnoredPrefix && r[|r| - 1] == '\''
    ensures r[|IgnoredPrefix|..|r| - 1] == name
  {
    IgnoredPrefix + name + "'"
  }

  /** Reads the rule name back out of a reason; `None` for any reason that
      does not have the "Ignored by rule '<name>'" shape. */
  function AttributedRule(reason: string): Option<string> {
    if |reason| > |IgnoredPrefix| && reason[..|IgnoredPrefix|] == IgnoredPrefix && reason[|reason| - 1] == '\''
    then Some(reason[|IgnoredPrefix|..|reason| - 1])
    else None
  }

  /** A suppression reason names its rule, and the two fixed keyword-check
      reasons name none. */
  lemma AttributionRoundTrip(name: string)
    ensures AttributedRule(IgnoredReason(name)) == Some(name)
    ensures AttributedRule(KeywordReason) == None
    ensures AttributedRule(DefaultReason) == None
  {
  }

  // ---------------------------------------------------------------------
  // Ignore rules
  // ---------------------------------------------------------------------

  /** Rule `i` is the first rule of the list whose regex is found in `entry`. */
  predicate IsFirstMatch(rules: seq<Rule>, entry: string, search: RegexSearch, i: int) {
    && 0 <= i < |rules|
    && search(rules[i].regex, entry)
    && forall j :: 0 <= j < i ==> !search(rules[j].regex, entry)
  }

  /** Some rule of the list, wherever it stands, matches `entry`. */
  predicate AnyRuleMatches(rules: seq<Rule>, entry: string, search: RegexSearch) {
    exists r :: r in rules && search(r.regex, entry)
  }

  /** The position of the rule the scan stops at, if any. */
  function FirstMatch(rules: seq<Rule>, entry: string, search: RegexSearch): (r: Option<nat>)
    ensures r.Some? ==> IsFirstMatch(rules, entry, search, r.value)
    ensures r.None? ==> forall j :: 0 <= j < |rules| ==> !search(rules[j].regex, entry)
    decreases |rules|
  {
    if |rules| == 0 then None
    else if search(rules[0].regex, entry) then Some(0)
    else
      match FirstMatch(rules[1..], entry, search)
      case None => None
      case Some(i) => Some(i + 1)
  }

  /** The scan stops somewhere exactly when some rule matches. */
  lemma FirstMatchFindsAny(rules: seq<Rule>, entry: string, search: RegexSearch)
    ensures FirstMatch(rules, entry, search).Some? <==> AnyRuleMatches(rules, entry, search)
  {
  }

  // ---------------------------------------------------------------------
  // Keyword check
  // ---------------------------------------------------------------------

  /** `"error" in entry.lower() or "failed" in entry.lower()`. */
  predicate HasKeyword(entry: string)
    ensures HasKeyword(entry) <==>
              exists i :: OccursAt(ToLower(entry), "error", i) || OccursAt(ToLower(entry), "failed", i)
  {
    var low := ToLower(entry);
    ContainsIff(low, "error");
    ContainsIff(low, "failed");
    Contains(low, "error") || Contains(low, "failed")
  }

  /** The decision taken when no ignore rule applies. */
  function KeywordVerdict(entry: string): (v: Verdict)
    ensures v.isAnomaly <==> HasKeyword(entry)
    ensures v.isAnomaly ==> v.reason == KeywordReason
    ensures !v.isAnomaly ==> v.reason == DefaultReason
  {
    if HasKeyword(entry) then Verdict(true, KeywordReason) else Verdict(false, DefaultReason)
  }

  /** Any capitalisation of "error" or "failed" inside the entry ("ERROR",
      "Failed", ...) makes the keyword check fire. */
  lemma KeywordCaseInsensitive(entry: string, w: string)
    requires Contains(entry, w)
    requires ToLower(w) == "error" || ToLower(w) == "failed"
    ensures HasKeyword(entry)
  {
    ContainsToLower(entry, w);
  }

  /** Position `i` of the entry holds `word` in some capitalisation. */
  predicate MentionsAt(entry: string, i: int, word: string) {
    0 <= i && i + |word| <= |entry| && ToLower(entry[i..i + |word|]) == word
  }

  /** The keyword check fires exactly when the entry holds "error" or
      "failed" in some capitalisation at some position. */
  lemma KeywordIff(entry: string)
    ensures HasKeyword(entry) <==>
              exists i :: MentionsAt(entry, i, "error") || MentionsAt(entry, i, "failed")
  {
    var low := ToLower(entry);
    ContainsIff(low, "error");
    ContainsIff(low, "failed");
    if exists i :: OccursAt(low, "error", i) {
      var i :| OccursAt(low, "error", i);
      ToLowerSlice(entry, i, i + 5);
      assert MentionsAt(entry, i, "error");
    }
    if exists i :: OccursAt(low, "failed", i) {
      var i :| OccursAt(low, "failed", i);
      ToLowerSlice(entry, i, i + 6);
      assert MentionsAt(entry, i, "failed");
    }
    if exists i :: MentionsAt(entry, i, "error") || MentionsAt(entry, i, "failed") {
      var i :| MentionsAt(entry, i, "error") || MentionsAt(entry, i, "failed");
      if MentionsAt(entry, i, "error") {
        ToLowerSlice(entry, i, i + 5);
        assert OccursAt(low, "error", i);
      } else {
        ToLowerSlice(entry, i, i + 6);
        assert OccursAt(low, "failed", i);
      }
    }
  }

  // ---------------------------------------------------------------------
  // analyze_log
  // ---------------------------------------------------------------------

  /** The configuration has an ignore list and some rule of it matches. */
  predicate Suppressed(conf: Config, entry: string, search: RegexSearch) {
    conf.ignore.Some? && AnyRuleMatches(conf.ignore.value, entry, search)
  }

  /** The verdict for one log entry. The first matching ignore rule wins and
      makes the entry benign, whatever its text; otherwise the keyword check
      decides. Every path gives a verdict with a non-empty reason. */
  function AnalyzeLog(entry: string, conf: Config, search: RegexSearch): (v: Verdict)
    ensures v.reason != []
    ensures v.isAnomaly <==> !Suppressed(conf, entry, search) && HasKeyword(entry)
    ensures forall i :: conf.ignore.Some? && IsFirstMatch(conf.ignore.value, entry, search, i) ==>
              v == Verdict(false, IgnoredReason(conf.ignore.value[i].name))
    ensures !Suppressed(conf, entry, search) ==> v == KeywordVerdict(entry)
  {
    match conf.ignore
    case None => KeywordVerdict(entry)
    case Some(rules) =>
      FirstMatchFindsAny(rules, entry, search);
      match FirstMatch(rules, entry, search)
      case Some(i) =>
        assert forall k :: IsFirstMatch(rules, entry, search, k) ==> k == i;
        Verdict(false, IgnoredReason(rules[i].name))
      case None => KeywordVerdict(entry)
  }

  /** The reason names a rule exactly when a rule suppressed the entry, and
      then it names the first matching rule in list order. */
  lemma ReasonNamesFirstMatch(entry: string, conf: Config, search: RegexSearch)
    ensures AttributedRule(AnalyzeLog(entry, conf, search).reason).Some? <==> Suppressed(conf, entry, search)
    ensures forall i :: conf.ignore.Some? && IsFirstMatch(conf.ignore.value, entry, search, i) ==>
              AttributedRule(AnalyzeLog(entry, conf, search).reason) == Some(conf.ignore.value[i].name)
  {
  }

  /** A configuration without an `ignore` key behaves like an empty rule
      list: only the keyword decision is taken. */
  lemma NoIgnoreKey(entry: string, conf: Config, search: RegexSearch)
    requires conf.ignore.None?
    ensures AnalyzeLog(entry, conf, search) == AnalyzeLog(entry, conf.(ignore := Some([])), search)
    ensures AnalyzeLog(entry, conf, search) == KeywordVerdict(entry)
  {
  }

  /** Only the ignore list is read: the rules after the first match, and every
      other section of the configuration, make no difference. */
  lemma LaterRulesNeverConsulted(entry: string, c1: Config, c2: Config, search: RegexSearch, i: nat)
    requires c1.ignore.Some? && c2.ignore.Some?
    requires IsFirstMatch(c1.ignore.value, entry, search, i)
    requires i < |c2.ignore.value| && c1.ignore.value[..i + 1] == c2.ignore.value[..i + 1]
    ensures AnalyzeLog(entry, c1, search) == AnalyzeLog(entry, c2, search)
  {
    var r1, r2 := c1.ignore.value, c2.ignore.value;
    forall j | 0 <= j <= i
      ensures r2[j] == r1[j]
    {
      assert r1[j] == r1[..i + 1][j];
      assert r2[j] == r2[..i + 1][j];
    }
    assert IsFirstMatch(r2, entry, search, i);
  }

  /** Whether an entry is an anomaly does not depend on the order of the
      ignore rules; only the attributed rule name can. */
  lemma AnomalyIgnoresRuleOrder(entry: string, c1: Config, c2: Config, search: RegexSearch)
    requires c1.ignore.Some? && c2.ignore.Some?
    requires multiset(c1.ignore.value) == multiset(c2.ignore.value)
    ensures AnalyzeLog(entry, c1, search).isAnomaly == AnalyzeLog(entry, c2, search).isAnomaly
  {
    var r1, r2 := c1.ignore.value, c2.ignore.value;
    forall r
      ensures r in r1 <==> r in r2
    {
      assert r in r1 <==> r in multiset(r1);
      assert r in r2 <==> r in multiset(r2);
    }
  }

  /** Appending a rule leaves the verdict as it was when an earlier rule
      already matches or the new one does not; when the new rule is the only
      one that matches, the entry becomes benign under its name. In
      particular it never turns a benign entry into an anomaly. */
  lemma AppendedRuleOnlySuppresses(entry: string, conf: Config, x: Rule, search: RegexSearch)
    requires conf.ignore.Some?
    ensures AnyRuleMatches(conf.ignore.value, entry, search) || !search(x.regex, entry) ==>
              AnalyzeLog(entry, conf.(ignore := Some(conf.ignore.value + [x])), search)
              == AnalyzeLog(entry, conf, search)
    ensures !AnyRuleMatches(conf.ignore.value, entry, search) && search(x.regex, entry) ==>
              AnalyzeLog(entry, conf.(ignore := Some(conf.ignore.value + [x])), search)
              == Verdict(false, IgnoredReason(x.name))
  {
    var rules := conf.ignore.value;
    var c2 := conf.(ignore := Some(rules + [x]));
    FirstMatchFindsAny(rules, entry, search);
    match FirstMatch(rules, entry, search)
    case Some(i) =>
      assert (rules + [x])[..i + 1] == rules[..i + 1];
      LaterRulesNeverConsulted(entry, conf, c2, search, i);
    case None =>
      if search(x.regex, entry) {
        assert IsFirstMatch(rules + [x], entry, search, |rules|);
      } else {
        assert !AnyRuleMatches(rules + [x], entry, search);
      }
  }

  /** An entry that mentions "ERROR", "Failed" or any other capitalisation of
      the keywords, and that no rule suppresses, is an anomaly with the fixed
      keyword reason; a matching rule still overrides it. */
  lemma KeywordEntryVerdict(entry: string, w: string, conf: Config, search: RegexSearch)
    requires Contains(entry, w)
    requires ToLower(w) == "error" || ToLower(w) == "failed"
    ensures !Suppressed(conf, entry, search) ==> AnalyzeLog(entry, conf, search) == Verdict(true, KeywordReason)
    ensures Suppressed(conf, entry, search) ==> !AnalyzeLog(entry, conf, search).isAnomaly
  {
    KeywordCaseInsensitive(entry, w);
  }

  /** With the initial configuration no rule exists, so only the keyword
      check decides. */
  lemma DefaultConfigUsesKeywordsOnly(entry: string, search: RegexSearch)
    ensures AnalyzeLog(entry, DefaultConfig, search) == KeywordVerdict(entry)
  {
  }
}
