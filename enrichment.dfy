/**
 * Email enrichment (server.js:113-143): for every lead, the candidates of
 * `generateEmailPermutations` are checked in order by an address verifier,
 * and the first one it accepts becomes the lead's email.
 */
module Enrichment {
  import opened Wrappers
  import opened Text
  import opened EmailPermutations
  import opened Leads

  /**
   * What the verifier's callback receives for one address: an error, or an
   * answer whose `success` flag says whether the address is deliverable.
   */
  datatype Verdict = VerifyError | Info(success: bool)

  /** `!err && info.success` (server.js:127): an error never counts as acceptance. */
  function Accepted(v: Verdict): (b: bool)
    ensures b <==> v == Info(true)
  {
    v.Info? && v.success
  }

  /** The first candidate, in list order, whose verdict is an acceptance. */
  function FirstAccepted(candidates: seq<string>, verify: string -> Verdict): (r: Option<string>)
    ensures r.None? <==> forall i :: 0 <= i < |candidates| ==> !Accepted(verify(candidates[i]))
    ensures r.Some? ==> exists i :: 0 <= i < |candidates| && candidates[i] == r.value
                          && Accepted(verify(candidates[i]))
                          && forall j :: 0 <= j < i ==> !Accepted(verify(candidates[j]))
  {
    if candidates == [] then None
    else if Accepted(verify(candidates[0])) then Some(candidates[0])
    else
      var r := FirstAccepted(candidates[1..], verify);
      assert forall i :: 1 <= i < |candidates| ==> candidates[i] == candidates[1..][i - 1];
      if r.Some? then
        var i :| 0 <= i < |candidates[1..]| && candidates[1..][i] == r.value
                 && Accepted(verify(candidates[1..][i]))
                 && forall j :: 0 <= j < i ==> !Accepted(verify(candidates[1..][j]));
        assert candidates[i + 1] == r.value;
        r
      else r
  }

  /** If the candidates before `k` are rejected and `k` is accepted, `k` is the one chosen. */
  lemma FirstAcceptedAt(candidates: seq<string>, verify: string -> Verdict, k: nat)
    requires k < |candidates| && Accepted(verify(candidates[k]))
    requires forall j :: 0 <= j < k ==> !Accepted(verify(candidates[j]))
    ensures FirstAccepted(candidates, verify) == Some(candidates[k])
  {
    var r := FirstAccepted(candidates, verify);
    var i :| 0 <= i < |candidates| && candidates[i] == r.value
             && Accepted(verify(candidates[i]))
             && forall j :: 0 <= j < i ==> !Accepted(verify(candidates[j]));
    assert !(i < k) && !(k < i);
  }

  /** One lead after enrichment under a resolved domain. */
  function EnrichLead(l: Lead, domain: string, verify: string -> Verdict): (r: Lead)
    ensures r.nome == l.nome && r.link == l.link
    ensures r.email != l.email ==> r.email in GenerateEmailPermutations(l.nome, domain)
    ensures FirstAccepted(GenerateEmailPermutations(l.nome, domain), verify).None? ==> r == l
    ensures var f := FirstAccepted(GenerateEmailPermutations(l.nome, domain), verify);
            f.Some? ==> r == l.(email := f.value)
  {
    match FirstAccepted(GenerateEmailPermutations(l.nome, domain), verify)
    case Some(email) => l.(email := email)
    case None => l
  }

  /** All leads after enrichment: unchanged when no domain was resolved. */
  function EnrichAll(leads: seq<Lead>, companyDomain: Option<string>, verify: string -> Verdict): (r: seq<Lead>)
    ensures |r| == |leads|
    ensures !Truthy(companyDomain) ==> r == leads
    ensures Truthy(companyDomain) ==>
              forall i :: 0 <= i < |leads| ==> r[i] == EnrichLead(leads[i], companyDomain.value, verify)
  {
    if Truthy(companyDomain) then
      seq(|leads|, i requires 0 <= i < |leads| => EnrichLead(leads[i], companyDomain.value, verify))
    else leads
  }

  /**
   * The enrichment loop of server.js:115-141: each lead's candidates are
   * tried in order and the first accepted one is written into the lead.
   */
  method Enrich(leads: array<Lead>, companyDomain: Option<string>, verify: string -> Verdict)
    modifies leads
    ensures leads[..] == EnrichAll(old(leads[..]), companyDomain, verify)
  {
    if Truthy(companyDomain) {
      EnrichEach(leads, companyDomain.value, verify);
    }
  }

  /** Every lead of the array, in index order, enriched under `domain`. */
  method EnrichEach(leads: array<Lead>, domain: string, verify: string -> Verdict)
    modifies leads
    ensures forall j :: 0 <= j < leads.Length ==> leads[j] == EnrichLead(old(leads[j]), domain, verify)
  {
    for i := 0 to leads.Length
      invariant forall j :: 0 <= j < i ==> leads[j] == EnrichLead(old(leads[j]), domain, verify)
      invariant forall j :: i <= j < leads.Length ==> leads[j] == old(leads[j])
    {
      EnrichOne(leads, i, domain, verify);
    }
  }

  /**
   * The inner loop of server.js:123-140 for the lead at index `i`: its
   * candidates are tried in order; the first accepted one is written into
   * the lead and the search for that lead stops.
   */
  method EnrichOne(leads: array<Lead>, i: nat, domain: string, verify: string -> Verdict)
    requires i < leads.Length
    modifies leads
    ensures leads[..] == old(leads[..])[i := EnrichLead(old(leads[i]), domain, verify)]
  {
    var lead := leads[i];
    var permutations := GenerateEmailPermutations(lead.nome, domain);
    ghost var before := leads[..];
    for k := 0 to |permutations|
      invariant leads[..] == before
      invariant FirstAccepted(permutations[k..], verify) == FirstAccepted(permutations, verify)
    {
      var email := permutations[k];
      var result := verify(email);
      assert permutations[k..][1..] == permutations[k + 1..];
      if Accepted(result) {
        leads[i] := lead.(email := email);
        break;
      }
    }
  }

  // ---------------------------------------------------------------------
  // What enrichment keeps and what it assigns
  // ---------------------------------------------------------------------

  /** The unresolved sentinel can never be mistaken for a candidate address. */
  lemma NotFoundIsNoCandidate(fullName: string, domain: string)
    ensures NotFound !in GenerateEmailPermutations(fullName, domain)
  {
    assert '@' !in NotFound;
    forall e | e in GenerateEmailPermutations(fullName, domain) ensures '@' in e {
      var n := |e| - |"@" + domain|;
      assert e[n] == '@';
    }
  }

  /**
   * Enrichment keeps the number, order, names and links of the leads; each
   * email is either the one the lead had or the first candidate, in
   * generator order, that the verifier accepted.
   */
  lemma EnrichKeepsLeads(leads: seq<Lead>, companyDomain: Option<string>, verify: string -> Verdict)
    ensures var r := EnrichAll(leads, companyDomain, verify);
            |r| == |leads|
            && forall i :: 0 <= i < |leads| ==>
                 r[i].nome == leads[i].nome && r[i].link == leads[i].link
                 && (r[i].email == leads[i].email
                     || (Truthy(companyDomain)
                         && Some(r[i].email) == FirstAccepted(GenerateEmailPermutations(leads[i].nome, companyDomain.value), verify)))
  {
  }

  /** Without a resolved domain, nothing changes. */
  lemma EnrichWithoutDomain(leads: seq<Lead>, companyDomain: Option<string>, verify: string -> Verdict)
    requires !Truthy(companyDomain)
    ensures EnrichAll(leads, companyDomain, verify) == leads
  {
  }

  /**
   * For freshly extracted leads: a lead ends with `NotFound` exactly when
   * no domain was resolved or the verifier accepted none of its candidates;
   * otherwise its email is the first accepted candidate, which was generated
   * from the lead's own name and the domain.
   */
  lemma EnrichExtracted(hits: seq<Hit>, companyDomain: Option<string>, verify: string -> Verdict)
    ensures var leads := ExtractLeads(hits);
            var r := EnrichAll(leads, companyDomain, verify);
            |r| == |leads|
            && forall i :: 0 <= i < |r| ==>
                 (r[i].email == NotFound <==>
                    !Truthy(companyDomain)
                    || FirstAccepted(GenerateEmailPermutations(leads[i].nome, companyDomain.value), verify).None?)
                 && (r[i].email != NotFound ==>
                       Truthy(companyDomain)
                       && r[i].email in GenerateEmailPermutations(leads[i].nome, companyDomain.value)
                       && Some(r[i].email) == FirstAccepted(GenerateEmailPermutations(leads[i].nome, companyDomain.value), verify))
  {
    var leads := ExtractLeads(hits);
    var r := EnrichAll(leads, companyDomain, verify);
    forall i | 0 <= i < |r|
      ensures r[i].email == NotFound <==>
                !Truthy(companyDomain)
                || FirstAccepted(GenerateEmailPermutations(leads[i].nome, companyDomain.value), verify).None?
      ensures r[i].email != NotFound ==>
                Truthy(companyDomain)
                && r[i].email in GenerateEmailPermutations(leads[i].nome, companyDomain.value)
                && Some(r[i].email) == FirstAccepted(GenerateEmailPermutations(leads[i].nome, companyDomain.value), verify)
    {
      assert leads[i] in leads;
      if Truthy(companyDomain) {
        var cands := GenerateEmailPermutations(leads[i].nome, companyDomain.value);
        NotFoundIsNoCandidate(leads[i].nome, companyDomain.value);
        match FirstAccepted(cands, verify)
        case Some(e) =>
          assert e in cands;
        case None =>
      }
    }
  }

  /**
   * Three profile hits and no company site: three leads, every one of them
   * left with `NotFound`.
   */
  lemma ExampleNoCompanySite(h1: Hit, h2: Hit, h3: Hit, verify: string -> Verdict)
    requires IsProfileHit(h1) && IsProfileHit(h2) && IsProfileHit(h3)
    ensures var r := EnrichAll(ExtractLeads([h1, h2, h3]), None, verify);
            |r| == 3 && forall i :: 0 <= i < 3 ==> r[i].email == NotFound
  {
    var hits := [h1, h2, h3];
    ExtractLeadsAllProfiles(hits);
    EnrichWithoutDomain(ExtractLeads(hits), None, verify);
  }
}
