/** The pure part of `ignore list` and `ignore add` (whistle/__main__.py):
    formatting the rule listing, and appending a rule under a fresh name. */
module IgnoreCommands {
  import opened Wrappers
  import opened Settings
  import opened Llm

  // ---------------------------------------------------------------------
  // ignore list
  // ---------------------------------------------------------------------

  const NoRulesMessage: string := "No ignore rules defined."

  /** A comment is shown only when it is present and non-empty. */
  predicate HasShownComment(c: Option<string>) {
    c.Some? && c.value != ""
  }

  /** One listing line: `- <name>: '<regex>'`, followed by ` (<comment>)`
      when the rule has a non-empty comment. */
  function FormatRule(rule: Rule): (line: string)
    ensures |line| > 2 + |rule.name| && line[..2] == "- " && line[2..2 + |rule.name|] == rule.name
  {
    "- " + rule.name + ": '" + rule.regex + "'"
    + (if HasShownComment(rule.comment) then " (" + rule.comment.value + ")" else "")
  }

  /** A listing line starts with the rule's name and regex, and its last
      character tells whether a comment was shown: `)` after a comment,
      the closing quote of the regex otherwise. A shown comment reads back
      from between ` (` and the final `)`. */
  lemma FormatRuleShape(rule: Rule)
    ensures var line := FormatRule(rule);
            var head := "- " + rule.name + ": '" + rule.regex + "'";
            && |line| >= |head| && line[..|head|] == head
            && (HasShownComment(rule.comment) <==> line[|line| - 1] == ')')
            && (!HasShownComment(rule.comment) ==> line == head)
            && (HasShownComment(rule.comment) ==>
                  && |line| == |head| + 3 + |rule.comment.value|
                  && line[|head|..|head| + 2] == " ("
                  && line[|head| + 2..|line| - 1] == rule.comment.value)
  {
  }

  /** The lines `ignore list` prints: a fixed message when the key is absent
      or the list is empty, otherwise one line per rule in stored order. */
  function IgnoreList(conf: Config): (lines: seq<string>)
    ensures conf.ignore.None? || conf.ignore.value == [] ==> lines == [NoRulesMessage]
    ensures conf.ignore.Some? && conf.ignore.value != [] ==>
              && |lines| == |conf.ignore.value|
              && forall i :: 0 <= i < |lines| ==> lines[i] == FormatRule(conf.ignore.value[i])
  {
    if conf.ignore.None? || conf.ignore.value == [] then [NoRulesMessage]
    else seq(|conf.ignore.value|, i requires 0 <= i < |conf.ignore.value| => FormatRule(conf.ignore.value[i]))
  }

  // ---------------------------------------------------------------------
  // ignore add
  // ---------------------------------------------------------------------

  /** Why `ignore add` aborts: the configuration has no `ignore` key (the
      source indexes it directly and fails), or the name is already used. */
  datatype AddError = MissingIgnoreList | DuplicateName(name: string)

  /** The rule `ignore add` builds: a `comment` key only for a non-empty
      `--comment`. */
  function NewRule(name: string, regex: string, comment: Option<string>): (r: Rule)
    ensures r.name == name && r.regex == regex
    ensures r.comment.Some? <==> HasShownComment(comment)
    ensures r.comment.Some? ==> r.comment == comment
  {
    Rule(name, regex, if HasShownComment(comment) then comment else None)
  }

  /** `ignore add NAME REGEX [--comment C]`: only the name is checked for
      uniqueness; on success exactly one rule is appended at the end and
      nothing else in the configuration changes. */
  function IgnoreAdd(conf: Config, name: string, regex: string, comment: Option<string>): (r: Result<Config, AddError>)
    ensures conf.ignore.None? ==> r == Failure(MissingIgnoreList)
    ensures conf.ignore.Some? && NameTaken(conf.ignore.value, name) ==> r == Failure(DuplicateName(name))
    ensures r.Success? <==> conf.ignore.Some? && !NameTaken(conf.ignore.value, name)
    ensures r.Success? ==>
              var rules := conf.ignore.value;
              && r.value.llm == conf.llm && r.value.alert == conf.alert && r.value.log == conf.log
              && r.value.ignore.Some?
              && |r.value.ignore.value| == |rules| + 1
              && r.value.ignore.value[..|rules|] == rules
              && r.value.ignore.value[|rules|] == NewRule(name, regex, comment)
  {
    match conf.ignore
    case None => Failure(MissingIgnoreList)
    case Some(rules) =>
      if NameTaken(rules, name) then Failure(DuplicateName(name))
      else Success(conf.(ignore := Some(rules + [NewRule(name, regex, comment)])))
  }

  /** Adding a rule keeps the names of the list unique. */
  lemma IgnoreAddKeepsNamesUnique(conf: Config, name: string, regex: string, comment: Option<string>)
    requires conf.ignore.Some? && UniqueNames(conf.ignore.value)
    ensures var r := IgnoreAdd(conf, name, regex, comment);
            r.Success? ==> UniqueNames(r.value.ignore.value)
  {
  }

  /** A rule whose regex is already used by another rule is accepted as long
      as its name is new: the list then holds two rules with the same regex. */
  lemma DuplicateRegexAccepted(conf: Config, name: string, regex: string, comment: Option<string>, k: nat)
    requires conf.ignore.Some? && k < |conf.ignore.value|
    requires conf.ignore.value[k].regex == regex
    requires !NameTaken(conf.ignore.value, name)
    ensures var r := IgnoreAdd(conf, name, regex, comment);
            && r.Success?
            && var rules := r.value.ignore.value;
            && rules[k].regex == rules[|rules| - 1].regex
            && rules[k].name != rules[|rules| - 1].name
  {
  }

  /** A successful add leaves the listing as it was and appends the new
      rule's line; an add into an empty list replaces the "no rules"
      message with that one line. */
  lemma IgnoreAddExtendsListing(conf: Config, name: string, regex: string, comment: Option<string>)
    requires IgnoreAdd(conf, name, regex, comment).Success?
    ensures var after := IgnoreList(IgnoreAdd(conf, name, regex, comment).value);
            var line := FormatRule(NewRule(name, regex, comment));
            && (conf.ignore.value == [] ==> after == [line])
            && (conf.ignore.value != [] ==> after == IgnoreList(conf) + [line])
  {
  }

  /** After a successful add, every entry the new regex is found in is
      benign; entries an earlier rule already suppressed keep their verdict
      and attribution; for all other entries the verdict is unchanged. */
  lemma AddedRuleSuppresses(conf: Config, name: string, regex: string, comment: Option<string>,
                            entry: string, search: RegexSearch)
    requires IgnoreAdd(conf, name, regex, comment).Success?
    ensures var after := AnalyzeLog(entry, IgnoreAdd(conf, name, regex, comment).value, search);
            var before := AnalyzeLog(entry, conf, search);
            && (search(regex, entry) ==> !after.isAnomaly)
            && (Suppressed(conf, entry, search) ==> after == before)
            && (!search(regex, entry) ==> after == before)
            && (!Suppressed(conf, entry, search) && search(regex, entry) ==>
                  after == Verdict(false, IgnoredReason(name)))
  {
  }

  /** A freshly initialised configuration lists no rules, and the first add
      to it succeeds with a one-rule list whose listing is that rule's line. */
  lemma DefaultConfigFirstAdd(name: string, regex: string, comment: Option<string>)
    ensures IgnoreList(DefaultConfig) == [NoRulesMessage]
    ensures IgnoreAdd(DefaultConfig, name, regex, comment)
            == Success(DefaultConfig.(ignore := Some([NewRule(name, regex, comment)])))
    ensures IgnoreList(IgnoreAdd(DefaultConfig, name, regex, comment).value)
            == [FormatRule(NewRule(name, regex, comment))]
  {
  }
}
