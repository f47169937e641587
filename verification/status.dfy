/** The `/status` endpoint of app/api/status.py: which services are available, a pure
    function of the configuration. Environment variables are None when unset. */
module Status {
  import opened Wrappers

  datatype Config = Config(onlineMode: bool, llmProvider: Option<string>, geminiApiKey: Option<string>,
                           azureTtsKey: Option<string>)

  datatype Services = Services(pdfExtractor: bool, searchIndex: bool, insights: bool, tts: bool)

  datatype StatusReport = StatusReport(mode: string, services: Services)

  /** Python truthiness of an optional string: set and non-empty. */
  predicate Truthy(v: Option<string>) {
    v.Some? && v.value != ""
  }

  function GetStatus(c: Config): (r: StatusReport)
    ensures r.services.pdfExtractor && r.services.searchIndex
    ensures r.mode == "online" || r.mode == "offline"
  {
    var insights := if c.onlineMode then Truthy(c.llmProvider) && Truthy(c.geminiApiKey) else true;
    var tts := if c.onlineMode then Truthy(c.azureTtsKey) else true;
    StatusReport(if c.onlineMode then "online" else "offline", Services(true, true, insights, tts))
  }

  /** Offline, the local models stand in: everything is available. */
  lemma OfflineHasEverything(c: Config)
    requires !c.onlineMode
    ensures GetStatus(c) == StatusReport("offline", Services(true, true, true, true))
  {
  }

  /** Online, insights need both a provider and a Gemini key, and speech needs an Azure key;
      a key that is present but empty counts as missing. */
  lemma OnlineNeedsKeys(c: Config)
    requires c.onlineMode
    ensures GetStatus(c).mode == "online"
    ensures GetStatus(c).services.insights <==> Truthy(c.llmProvider) && Truthy(c.geminiApiKey)
    ensures GetStatus(c).services.tts <==> Truthy(c.azureTtsKey)
    ensures c.geminiApiKey == Some("") ==> !GetStatus(c).services.insights
    ensures c.azureTtsKey == Some("") ==> !GetStatus(c).services.tts
  {
  }

  /** The mode reported is the configured one, and only online mode can lack a service. */
  lemma ModeMatchesConfig(c: Config)
    ensures GetStatus(c).mode == "online" <==> c.onlineMode
    ensures !GetStatus(c).services.insights || !GetStatus(c).services.tts ==> c.onlineMode
  {
    assert "online" != "offline" by {
      assert |"online"| != |"offline"|;
    }
  }
}
