/**
 * The `POST /buscar` handler of server.js:81-162 and the domain lookup of
 * `getCompanyDomain` (server.js:33-48). The two Custom Search calls, the
 * hostname parsing of `new URL`, the address verifier and the file write
 * are inputs: their outcomes are given to the handler as parameters.
 */
module Server {
  import opened Wrappers
  import opened Text
  import opened Leads
  import opened Enrichment

  const MissingCompanyMessage: string := "O nome da empresa é obrigatório."
  const ConfigurationMessage: string := "Erro de configuração no servidor."
  const SearchFailureMessage: string := "Falha ao processar a busca."

  /** The JSON body fields the handler reads. */
  datatype Body = Body(empresa: Option<string>, cargo: Option<string>)

  /** The search credentials read from the environment at start-up. */
  datatype Config = Config(apiKey: Option<string>, cx: Option<string>)

  /**
   * Outcome of the profile search: the call failed, or it answered with an
   * `items` list that may be missing.
   */
  datatype ProfileSearch = ProfileSearchFailed | ProfileResults(items: Option<seq<Hit>>)

  /**
   * Outcome of the company-site search: the call failed, or it answered
   * with its items, each given by the hostname of its link (`None` when the
   * link is not a valid URL and `new URL` throws).
   */
  datatype SiteSearch = SiteSearchFailed | SiteResults(hostnames: Option<seq<Option<string>>>)

  /** `res.json({ success: true, leads })` or `res.status(s).json({ success: false, error })`. */
  datatype Response = Success(leads: seq<Lead>) | Failure(status: int, error: string)

  /** `hostname.replace(/^www\./, '')`: one leading "www." is removed, if present. */
  function StripWww(hostname: string): (r: string)
    ensures EndsWith(hostname, r)
    ensures StartsWith(hostname, "www.") <==> |hostname| >= 4 && r == hostname[4..]
    ensures !StartsWith(hostname, "www.") <==> r == hostname
  {
    if StartsWith(hostname, "www.") then hostname[4..] else hostname
  }

  /** Removing "www." undoes prefixing it, and only one is removed. */
  lemma StripWwwPrefixed(host: string)
    ensures StripWww("www." + host) == host
  {
    assert ("www." + host)[..4] == "www.";
    assert ("www." + host)[4..] == host;
  }

  /** `getCompanyDomain`: the first result's hostname without "www.", or none. */
  function ResolveDomain(search: SiteSearch): (r: Option<string>)
    ensures r.Some? <==> search.SiteResults? && search.hostnames.Some? && |search.hostnames.value| > 0
                         && search.hostnames.value[0].Some?
    ensures r.Some? ==> r.value == StripWww(search.hostnames.value[0].value)
  {
    match search
    case SiteSearchFailed => None
    case SiteResults(items) =>
      if items.Some? && |items.value| > 0 then
        match items.value[0]
        case None => None
        case Some(hostname) => Some(StripWww(hostname))
      else None
  }

  /** `!API_KEY || !CX` rejects the request: both credentials must be present and non-empty. */
  function Configured(config: Config): (b: bool)
    ensures b <==> config.apiKey.Some? && config.apiKey.value != "" && config.cx.Some? && config.cx.value != ""
  {
    Truthy(config.apiKey) && Truthy(config.cx)
  }

  /**
   * The handler. `site` is the company-site search it runs once profile
   * hits exist, `verify` the verifier's verdict per address, and
   * `writeSucceeds` whether `fs.writeFileSync` returns normally. `csv` is the
   * text handed to `fs.writeFileSync`, if any.
   */
  method HandleBuscar(body: Body, config: Config, profiles: ProfileSearch, site: SiteSearch,
                      verify: string -> Verdict, writeSucceeds: bool)
    returns (response: Response, csv: Option<string>)
    ensures !Truthy(body.empresa) ==> response == Failure(400, MissingCompanyMessage) && csv.None?
    ensures Truthy(body.empresa) && !Configured(config) ==>
              response == Failure(500, ConfigurationMessage) && csv.None?
    ensures Truthy(body.empresa) && Configured(config) && profiles.ProfileSearchFailed? ==>
              response == Failure(500, SearchFailureMessage) && csv.None?
    ensures Truthy(body.empresa) && Configured(config) && profiles.ProfileResults?
            && (profiles.items.None? || profiles.items.value == []) ==>
              response == Success([]) && csv.None?
    ensures Truthy(body.empresa) && Configured(config) && profiles.ProfileResults?
            && profiles.items.Some? && profiles.items.value != [] ==>
              var leads := EnrichAll(ExtractLeads(profiles.items.value), ResolveDomain(site), verify);
              && csv == (if |leads| > 0 then Some(CsvText(leads)) else None)
              && response == (if |leads| > 0 && !writeSucceeds then Failure(500, SearchFailureMessage)
                              else Success(leads))
  {
    csv := None;
    if !Truthy(body.empresa) {
      return Failure(400, MissingCompanyMessage), csv;
    }
    if !Configured(config) {
      return Failure(500, ConfigurationMessage), csv;
    }
    if profiles.ProfileSearchFailed? {
      return Failure(500, SearchFailureMessage), csv;
    }
    var results := if profiles.items.Some? then profiles.items.value else [];
    if |results| == 0 {
      return Success([]), csv;
    }
    var companyDomain := ResolveDomain(site);
    var leads := EnrichedLeads(results, companyDomain, verify);
    if |leads| > 0 {
      csv := Some(CsvText(leads));
      if !writeSucceeds {
        return Failure(500, SearchFailureMessage), csv;
      }
    }
    response := Success(leads);
  }

  /**
   * The leads of the profile hits, placed in an array and enriched in
   * place (server.js:103-143).
   */
  method EnrichedLeads(hits: seq<Hit>, companyDomain: Option<string>, verify: string -> Verdict)
    returns (r: seq<Lead>)
    ensures r == EnrichAll(ExtractLeads(hits), companyDomain, verify)
  {
    var leads := LeadArray(ExtractLeads(hits));
    Enrich(leads, companyDomain, verify);
    r := leads[..];
  }

  /** A fresh array holding the leads, as `let leads = ....map(...)` creates them. */
  method LeadArray(s: seq<Lead>) returns (a: array<Lead>)
    ensures fresh(a) && a[..] == s
  {
    a := new Lead[|s|](i requires 0 <= i < |s| => s[i]);
  }
}
