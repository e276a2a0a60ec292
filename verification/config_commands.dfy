/** The pure part of the `config llm`, `config alert` and `config log`
    commands (whistle/__main__.py): each loads the configuration, overwrites
    only the options the user supplied, and saves it back. Loading and
    saving are left to the caller. */
module ConfigCommands {
  import opened Wrappers
  import opened Settings

  /** A supplied option replaces the stored value; an omitted one keeps it. */
  function Overlay<T>(stored: Option<T>, supplied: Option<T>): (r: Option<T>)
    ensures supplied.Some? ==> r == supplied
    ensures supplied.None? ==> r == stored
  {
    if supplied.Some? then supplied else stored
  }

  /** `config llm`: sets each of base URL, API key and model that was given
      on the command line (an empty string counts as given). */
  function ConfigLlm(conf: Config, baseUrl: Option<string>, apiKey: Option<string>, model: Option<string>): (r: Config)
    ensures r.alert == conf.alert && r.log == conf.log && r.ignore == conf.ignore
    ensures baseUrl.Some? ==> r.llm.baseUrl == baseUrl
    ensures baseUrl.None? ==> r.llm.baseUrl == conf.llm.baseUrl
    ensures apiKey.Some? ==> r.llm.apiKey == apiKey
    ensures apiKey.None? ==> r.llm.apiKey == conf.llm.apiKey
    ensures model.Some? ==> r.llm.model == model
    ensures model.None? ==> r.llm.model == conf.llm.model
  {
    conf.(llm := LlmSettings(Overlay(conf.llm.baseUrl, baseUrl),
                             Overlay(conf.llm.apiKey, apiKey),
                             Overlay(conf.llm.model, model)))
  }

  /** Running `config llm` twice with options `a` then `b` is one run in which
      each option of `b` wins over the same option of `a`. Running it with no
      options changes nothing, and repeating the same run is idempotent. */
  lemma ConfigLlmComposes(conf: Config,
                          u1: Option<string>, k1: Option<string>, m1: Option<string>,
                          u2: Option<string>, k2: Option<string>, m2: Option<string>)
    ensures ConfigLlm(ConfigLlm(conf, u1, k1, m1), u2, k2, m2)
            == ConfigLlm(conf, Overlay(u1, u2), Overlay(k1, k2), Overlay(m1, m2))
    ensures ConfigLlm(conf, None, None, None) == conf
    ensures ConfigLlm(ConfigLlm(conf, u1, k1, m1), u1, k1, m1) == ConfigLlm(conf, u1, k1, m1)
  {
  }

  /** `config alert`: sets the Slack webhook when given. */
  function ConfigAlert(conf: Config, slack: Option<string>): (r: Config)
    ensures r.llm == conf.llm && r.log == conf.log && r.ignore == conf.ignore
    ensures slack.Some? ==> r.alert.slack == slack
    ensures slack.None? ==> r == conf
  {
    conf.(alert := AlertSettings(Overlay(conf.alert.slack, slack)))
  }

  /** `config log`: sets `kernel_only` when given, and replaces the service
      units only when at least one `--service_unit` was given. */
  function ConfigLog(conf: Config, kernelOnly: Option<bool>, units: seq<string>): (r: Config)
    ensures r.llm == conf.llm && r.alert == conf.alert && r.ignore == conf.ignore
    ensures kernelOnly.Some? ==> r.log.kernelOnly == kernelOnly.value
    ensures kernelOnly.None? ==> r.log.kernelOnly == conf.log.kernelOnly
    ensures |units| > 0 ==> Units(r.log) == units
    ensures |units| == 0 ==> r.log.serviceUnits == conf.log.serviceUnits
  {
    var kernel := if kernelOnly.Some? then kernelOnly.value else conf.log.kernelOnly;
    var stored := if |units| > 0 then Some(units) else conf.log.serviceUnits;
    conf.(log := LogSettings(kernel, stored))
  }

  /** Omitting `--service_unit` never clears the configured units: the unit
      list after the command is empty only if it was empty before and none
      was given. */
  lemma ConfigLogNeverClearsUnits(conf: Config, kernelOnly: Option<bool>, units: seq<string>)
    ensures Units(ConfigLog(conf, kernelOnly, units).log) == [] <==> Units(conf.log) == [] && units == []
  {
  }
}
