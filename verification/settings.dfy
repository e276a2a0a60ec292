/** The configuration record the tool loads, edits and saves: LLM endpoint
    settings, the alert webhook, the log-source selection and the ordered
    list of ignore rules. A key that a loaded file may lack and that the
    code reads defensively is an `Option`. */
module Settings {
  import opened Wrappers

  /** An ignore rule: a unique name, a regular expression searched for in
      each entry, and an optional free-text comment. */
  datatype Rule = Rule(name: string, regex: string, comment: Option<string>)

  datatype LlmSettings = LlmSettings(baseUrl: Option<string>, apiKey: Option<string>, model: Option<string>)

  datatype AlertSettings = AlertSettings(slack: Option<string>)

  /** `serviceUnits` is `None` when the `service_units` key is absent; the
      commands that read it default it to the empty list. */
  datatype LogSettings = LogSettings(kernelOnly: bool, serviceUnits: Option<seq<string>>)

  /** `ignore` is `None` when the `ignore` key is absent from the file. */
  datatype Config = Config(llm: LlmSettings, alert: AlertSettings, log: LogSettings, ignore: Option<seq<Rule>>)

  /** The configured units, `[]` when the key is absent. */
  function Units(log: LogSettings): seq<string> {
    log.serviceUnits.GetOr([])
  }

  /** The configuration used when no file exists yet: nothing configured for
      the LLM or alerts, kernel messages only, no units, no ignore rules. */
  const DefaultConfig: Config :=
    Config(LlmSettings(None, None, None), AlertSettings(None), LogSettings(true, Some([])), Some([]))

  /** Some rule of the list carries `name`. */
  predicate NameTaken(rules: seq<Rule>, name: string) {
    exists i :: 0 <= i < |rules| && rules[i].name == name
  }

  /** No two rules of the list share a name. */
  predicate UniqueNames(rules: seq<Rule>) {
    forall i, j :: 0 <= i < j < |rules| ==> rules[i].name != rules[j].name
  }
}
