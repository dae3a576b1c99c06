# autoleads lead enrichment, in Dafny

This project models the lead-enrichment core of autoleads, a small
Express service. It is given a company name (`empresa`) and an optional
job title (`cargo`) and searches for LinkedIn profile pages. It turns each
profile hit into a lead (`nome`, `link`, `email`) and resolves the company's
web domain. For every lead it then tries the likely corporate addresses
in a fixed order against an address verifier and keeps the first one
accepted. It writes the leads as a semicolon-separated CSV text and
returns them as JSON. The browser side puts each lead into a table row,
passing the name, the link text and the email through `escapeHtml`; only
the link's `href` is inserted unescaped.

Modules, one per concern:

- `Wrappers` (wrappers.dfy): `Option`, and JavaScript truthiness of an
  optional string (`Truthy`: present and not empty).
- `Text` (text.dfy): the JavaScript string operations the core uses:
  - `toLowerCase`, on ASCII letters only;
  - `split` on one character, and `Array.join`;
  - `includes`;
  - `split(" - ")[0]`;
  - `trim`, with the ECMAScript white-space and line-terminator set.
- `EmailPermutations` (email_permutations.dfy): `generateEmailPermutations`.
  The insertion-ordered `Set` is modelled as `Dedup`: it keeps the first
  occurrence of each address.
- `Leads` (leads.dfy): lead extraction from search hits, and the CSV text.
- `Enrichment` (enrichment.dfy):
  - the reference function `FirstAccepted` (the first candidate the
    verifier accepts);
  - the imperative enrichment loop: `Enrich` over an `array<Lead>`, with its
    outer loop in `EnrichEach` and its inner loop in `EnrichOne`.
- `Server` (server.dfy): the `www.` strip of `getCompanyDomain`, and the
  `POST /buscar` handler with its guards, in source order.
- `EscapeHtml` (escape_html.dfy): `escapeHtml` of public/script.js, as the
  chain of five global replacements. It is proved equal to a single
  character-to-entity map and decodable back to its input.

The outside world is passed in as parameters:

- the two search calls are given by their outcome (`ProfileSearch`,
  `SiteSearch`);
- the address verifier is a function from an address to its `Verdict`
  (`VerifyError` or `Info(success)`);
- the success of `fs.writeFileSync` is a boolean.

The handler returns the response and the CSV text it hands to the file
write.

Some consequences of the code worth stating outright:

- `toLowerCase` does no accent stripping, so "João Silva" at acme.com
  yields `joão@acme.com` (`ExampleJoaoSilva`).
- `fs.writeFileSync` runs inside the handler's `try` (server.js:152), so a
  failed write turns the response into a 500 with "Falha ao processar a
  busca.". `HandleBuscar` states exactly this.
- Any failure of the profile search is answered with the same fixed
  message, "Falha ao processar a busca." (server.js:158-160).
- The handler reads only `empresa` and `cargo` from the request body
  (server.js:82).
- A name token must be longer than one UTF-16 code unit (`p.length`,
  server.js:59), so a lone emoji such as "🚀" is a token of its own
  (`ExampleAstralToken`).


## Model

| member | source | states |
|---|---|---|
| Text.Includes | server.js:104 | `s.includes(sub)` holds exactly when `sub` occurs in `s` at some index |
| Text.ToLower | server.js:59 | same length, and every character is lowered, with ASCII letters mapped to lower case and all others kept |
| Text.Split | server.js:59 | at least one piece, no piece holds the separator, and joining the pieces with the separator gives back the input |
| Text.SplitJoin | server.js:59 | splitting a join of separator-free pieces gives back those pieces |
| Text.JoinEnds | server.js:149 | `join` starts with the first piece, ends with the last, and is as long as the pieces plus one separator between each two |
| Text.BeforeFirst | server.js:106 | `split(d)[0]` is a prefix with no occurrence of `d` inside it, and is followed by `d` unless it is the whole string |
| Text.BeforeFirstAt | server.js:106 | when `d` first occurs at `k`, `split(d)[0]` is exactly the first `k` characters |
| Text.BeforeFirstAbsent | server.js:106 | when `d` does not occur, `split(d)[0]` is the whole string |
| Text.Trim | server.js:106 | `trim()` is a middle slice, everything removed is JavaScript white space, and the result neither starts nor ends with white space |
| Text.TrimUntouched | server.js:106 | a string with no white space at either end is its own trim |
| EmailPermutations.Dedup | server.js:65-76 | adding to a `Set` and reading it back gives no duplicates, and exactly the members that were added |
| EmailPermutations.DedupKeepsFirstOccurrenceOrder | server.js:65-76 | the output lists addresses in order of their first addition |
| EmailPermutations.DedupOfDistinct | server.js:65-76 | a list without repetitions passes through the `Set` unchanged |
| EmailPermutations.DedupFirst | server.js:65-76 | the first address added to the `Set` is kept, and listed first |
| Text.Utf16Length | server.js:59 | `length` counts UTF-16 code units: at least one and at most two per code point |
| Text.Utf16Single | server.js:59 | one code point has length 2 above U+FFFF and 1 otherwise |
| Text.Utf16Append | server.js:59 | the length of a concatenation is the sum of the lengths, so with `Utf16Single` it fixes `length` on every string |
| EmailPermutations.LongParts | server.js:59 | `filter(p => p.length > 1)` keeps exactly the pieces longer than one UTF-16 code unit, and at most as many as it is given |
| EmailPermutations.LongPartsOne | server.js:59 | one piece survives exactly when its `length` exceeds one |
| EmailPermutations.LongPartsAppend | server.js:59 | the filter distributes over concatenation, so order and repetitions of the surviving pieces are kept |
| EmailPermutations.NameParts | server.js:59 | every name token is longer than one UTF-16 code unit, holds no space and no ASCII capital |
| EmailPermutations.NamePartsOfPieces | server.js:59 | when the lowered name is space-free pieces joined by single spaces, the tokens are exactly the long pieces, in order |
| EmailPermutations.NamePartsOfJoined | server.js:59 | tokens longer than one code unit joined by single spaces are read back as the name's tokens |
| EmailPermutations.Address | server.js:67-73 | `local@domain` starts with the local part and ends with `@domain` |
| EmailPermutations.Forms | server.js:67-73 | the six conventions, in the order they are added, each ending with `@domain` |
| EmailPermutations.GenerateEmailPermutationsShape | server.js:56-77 | empty exactly when the name or domain is empty or no token survives; otherwise it starts with `first@domain`; never repeats; at most six; every address ends with `@domain` |
| EmailPermutations.GenerateSingleToken | server.js:62-67 | a name with one usable token yields exactly `[first@domain]` |
| EmailPermutations.GenerateSeveralTokens | server.js:62-76 | with two or more tokens, the result is the six conventions over the first and last token, with later repetitions dropped |
| EmailPermutations.GenerateIgnoresMiddleTokens | server.js:62-63 | names that agree on the first and last token get the same candidates |
| EmailPermutations.ExampleJoaoSilva | server.js:56-77 | "João Silva" at acme.com gives joão@, joão.silva@, joãosilva@, jsilva@, joão_silva@ and silva.joão@, in that order |
| EmailPermutations.ExampleSingleLetter | server.js:59-60 | a one-letter name yields no candidates |
| EmailPermutations.ExampleMiddleInitial | server.js:59 | "Maria J Souza" has the tokens "maria" and "souza": the one-letter middle token is dropped |
| EmailPermutations.ExampleDoubleSpace | server.js:59 | "Ana  Lima" with two spaces has the tokens "ana" and "lima": the empty piece is dropped |
| EmailPermutations.ExampleAstralToken | server.js:59 | "João Silva 🚀" has the tokens "joão", "silva" and "🚀", since "🚀" is two UTF-16 code units |
| EmailPermutations.ExampleRepeatedToken | server.js:65-76 | for "Ana Ana", last.first repeats first.last and is dropped, leaving five addresses |
| Leads.IsProfileHit | server.js:104 | a hit is a profile page exactly when its link is present and contains "linkedin.com/in/"; the empty link is excluded by that alone |
| Leads.NameFromTitle | server.js:106 | the name is the trimmed text before the first " - ", or the whole trimmed title when there is none |
| Leads.ToLead | server.js:105-109 | a lead keeps the hit's link, takes its name from the title, and starts with "Não encontrado" |
| Leads.ExtractLeads | server.js:103-109 | at most one lead per hit; every lead's link contains "linkedin.com/in/" and its email is "Não encontrado" |
| Leads.ExtractLeadsMembers | server.js:103-109 | the leads are exactly the leads of hits whose link is present and contains "linkedin.com/in/" |
| Leads.ExtractLeadsAppend | server.js:103-109 | extraction distributes over concatenation, so input order is kept |
| Leads.ExtractLeadsSingle | server.js:104 | a single hit yields its lead if it is a profile page, and nothing otherwise |
| Leads.ExtractLeadsAllProfiles | server.js:103-109 | when every hit is a profile page, there is one lead per hit at the same position |
| Leads.CsvRow | server.js:149 | a row starts with the name and a semicolon, ends with a semicolon and the email, and has the three fields plus two separators |
| Leads.CsvRows | server.js:149 | one `nome;link;email` row per lead, in lead order |
| Leads.CsvText | server.js:148-150 | the text starts with the header line "Nome;Link;Email" and a newline |
| Leads.CsvLines | server.js:147-150 | for fields without newlines, the text splits into the header followed by exactly one row per lead, with no trailing empty line |
| Leads.CsvRowFields | server.js:149 | for fields without semicolons, a row splits back into name, link and email |
| Enrichment.Accepted | server.js:127 | a verdict accepts exactly when it is an answer with `success` true; a verifier error never accepts |
| Enrichment.FirstAccepted | server.js:123-140 | none exactly when every candidate is rejected; otherwise the candidate at the first accepted index, all earlier ones being rejected |
| Enrichment.FirstAcceptedAt | server.js:123-140 | the accepted candidate at `k`, with all earlier ones rejected, is the one chosen |
| Enrichment.EnrichLead | server.js:119-140 | one lead keeps its name and link; when a candidate is accepted its email becomes the first accepted one, and otherwise the lead is unchanged |
| Enrichment.EnrichAll | server.js:113-143 | one lead out per lead in; with a domain each lead is enriched on its own, and without one the leads are unchanged |
| Enrichment.Enrich | server.js:115-141 | the array afterwards holds the enrichment of its old contents: with a domain, each lead enriched; without one, unchanged |
| Enrichment.EnrichEach | server.js:115-141 | after the outer loop, every cell holds its old lead enriched under the domain |
| Enrichment.EnrichOne | server.js:119-140 | only cell `i` changes, and it gets the first accepted candidate of its own name, or keeps its email |
| Enrichment.NotFoundIsNoCandidate | server.js:108-120 | "Não encontrado" is never a generated candidate |
| Enrichment.EnrichKeepsLeads | server.js:113-143 | enrichment keeps the number, order, names and links of the leads; each email is the old one or the first accepted candidate |
| Enrichment.EnrichWithoutDomain | server.js:113-144 | with no resolved domain, the leads are unchanged |
| Enrichment.EnrichExtracted | server.js:113-143 | a lead ends with "Não encontrado" exactly when no domain was resolved or every candidate was rejected; otherwise its email is the first accepted candidate generated from its own name |
| Enrichment.ExampleNoCompanySite | server.js:113-144 | three profile hits and no company site give three leads, all "Não encontrado" |
| Server.StripWww | server.js:41 | one leading "www." is removed, and only when present; otherwise the hostname is kept |
| Server.StripWwwPrefixed | server.js:41 | removing "www." undoes prefixing it |
| Server.ResolveDomain | server.js:33-48 | a domain is found exactly when the search succeeded with a first item whose link parses; it is that hostname without "www." |
| Server.Configured | server.js:87 | the request proceeds only when both the API key and the search engine id are present and non-empty |
| Server.EnrichedLeads | server.js:103-143 | the leads placed in an array and enriched in place are the enrichment of the extracted leads |
| Server.LeadArray | server.js:103-109 | a fresh array holding the extracted leads, in order, as `.map` creates new lead objects |
| Server.HandleBuscar | server.js:81-162 | 400 without `empresa`; 500 without credentials or when the search fails; empty success with no hits; otherwise the enriched leads, a CSV only when some lead exists, and 500 when that CSV cannot be written |
| EscapeHtml.ReplaceAll | public/script.js:65-70 | a global replace leaves text without the character unchanged, and removes the character when the replacement lacks it |
| EscapeHtml.ReplaceAllIntroducesNothing | public/script.js:65-70 | a global replace introduces no character found in neither the text nor the replacement |
| EscapeHtml.ReplaceAllSingle | public/script.js:65-70 | on one character, a global replace gives the replacement if it is the target and the character otherwise |
| EscapeHtml.ReplaceAllAppend | public/script.js:65-70 | a global replace distributes over concatenation |
| EscapeHtml.ChainIntroducesNothing | public/script.js:65-70 | a chain of replaces introduces no character found in neither the text nor any replacement |
| EscapeHtml.ChainRemoves | public/script.js:65-70 | a step's target is absent from the chain's output when no later replacement reintroduces it |
| EscapeHtml.ReplacementsRemoveMarkup | public/script.js:65-70 | after the five replaces, none of `<`, `>`, `"`, `'` is left |
| EscapeHtml.ChainAppend | public/script.js:65-70 | a chain of global replaces distributes over concatenation |
| EscapeHtml.ChainUntouched | public/script.js:65-70 | text holding no step's target passes through the chain unchanged |
| EscapeHtml.ChainOnChar | public/script.js:65-70 | when no replacement is rewritten by a later step, one character becomes the replacement of the first step aimed at it |
| EscapeHtml.ReplacementsSafe | public/script.js:65-70 | because `&` is replaced first, no entity produced is rewritten by a later step |
| EscapeHtml.Entity | public/script.js:65-70 | each special character maps to an entity starting with `&` and holding no other `&`; any other character is kept |
| EscapeHtml.EscapeHtml | public/script.js:64-71 | the output contains none of `<`, `>`, `"`, `'` |
| EscapeHtml.EscapeHtmlChar | public/script.js:65-70 | on one character the chain gives that character's entity, because `&` is replaced first |
| EscapeHtml.EscapeHtmlIsMap | public/script.js:65-70 | the replacement chain equals the single left-to-right character-to-entity map |
| EscapeHtml.EscapeHtmlLength | public/script.js:65-70 | output length is input length plus 4 per `&`, 3 per `<` and `>`, and 5 per `"` and `'` |
| EscapeHtml.EscapeHtmlUnchanged | public/script.js:65-70 | the text is returned unchanged exactly when it holds none of the five special characters |
| EscapeHtml.EscapeMapUnchanged | public/script.js:65-70 | the character-to-entity map is the identity exactly on text without the five special characters |
| EscapeHtml.EscapeTwiceChanges | public/script.js:65-70 | escaping twice differs from escaping once whenever the input has a special character |
| EscapeHtml.EscapeHtmlAmpersands | public/script.js:65-70 | every `&` of the output begins one of the five entities |
| EscapeHtml.UnescapeEscapeHtml | public/script.js:65-70 | decoding the five entities gives back the input, so no entity is escaped again |
| EscapeHtml.EscapeHtmlInjective | public/script.js:65-70 | different inputs never escape to the same text |

## Left out

- Express routing, static serving, `app.listen` and the output directory are not modelled. They are HTTP and file-system plumbing.
- The search requests, their query strings and `encodeURIComponent` (server.js:34-35, 93-96) are left out. Each search enters only as its outcome.
- `new URL(...)` is not modelled. The site search gives, per item, the parsed hostname or none; none stands for a link that throws or is missing.
- `emailVerifier.verify` is a total function from an address to a verdict. The model therefore assumes the same address always gets the same verdict, and says nothing about timing.
- Logging, `await` sequencing and the Promise wrapper around the callback are left out. They serialize the calls but do not change any value.
- The CSV file name (`leads_${empresa}.csv`, with white space replaced) and the `utf8` encoding are not modelled. Only the CSV text and whether the write returns normally are.
- EmailPermutations.Forms: `[first[0]]` is the first code point of the first token, where `charAt(0)` (server.js:71) gives its first UTF-16 code unit. For a token starting with a character above U+FFFF the source produces a lone surrogate, which a Dafny `char` cannot hold, so the model's initial differs there.
- `Text.ToLower` lowers ASCII letters only. JavaScript's full Unicode case mapping (for example "Ã" to "ã") is not modelled.
- A hit without a `title` makes `r.title.split` throw, which leads to a 500. The model's hits always have a title.
- The request body fields are strings or absent. Non-string values such as numbers or objects, and the errors they cause, are not modelled.
- The `cargo` field only shapes the query string, which is left out, so the handler's result does not depend on it.
- Leads.CsvText: fields are not quoted or escaped, as in the source. `CsvLines` and `CsvRowFields` therefore hold only for fields without newlines or semicolons.
- The browser code of `buscarLeads` is not modelled: the DOM, `fetch` and the button state (public/script.js:1-61). Only `escapeHtml` is. The lead link there goes into `href` without escaping, so no property here covers a whole table row.
- Enrichment.Enrich: the outer loop over leads and the inner loop over candidates are separate methods, `EnrichEach` and `EnrichOne`, for proof size. The leads are datatype values in an array, updated cell by cell. The source's objects are created fresh by `.map`, so there is no aliasing to lose.
