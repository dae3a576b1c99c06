/**
 * Turning search hits into leads (server.js:103-109) and the CSV text
 * written for them (server.js:147-150).
 */
module Leads {
  import opened Wrappers
  import opened Text

  /** The path that marks a LinkedIn profile page. */
  const ProfilePath: string := "linkedin.com/in/"

  /** The separator between a person's name and the rest of a page title. */
  const TitleSeparator: string := " - "

  /** The email of a lead for which no address was accepted. */
  const NotFound: string := "Não encontrado"

  const CsvHeader: string := "Nome;Link;Email"

  /** One search result: its page title and its link, which may be missing. */
  datatype Hit = Hit(title: string, link: Option<string>)

  /** One lead: the person's name, the profile link and the email. */
  datatype Lead = Lead(nome: string, link: string, email: string)

  /** `r.link && r.link.includes("linkedin.com/in/")`. */
  function IsProfileHit(h: Hit): (b: bool)
    ensures b <==> h.link.Some? && exists i :: OccursAt(h.link.value, ProfilePath, i)
  {
    Truthy(h.link) && Includes(h.link.value, ProfilePath)
  }

  /**
   * `title.split(" - ")[0].trim()`: the trimmed text before the first
   * " - ", or the whole trimmed title when there is none.
   */
  function NameFromTitle(title: string): (r: string)
    ensures !Includes(title, TitleSeparator) ==> r == Trim(title)
    ensures forall k :: OccursAt(title, TitleSeparator, k)
              && (forall i :: 0 <= i < k ==> !OccursAt(title, TitleSeparator, i))
              ==> r == Trim(title[..k])
  {
    var before := BeforeFirst(title, TitleSeparator);
    forall k | OccursAt(title, TitleSeparator, k)
              && (forall i :: 0 <= i < k ==> !OccursAt(title, TitleSeparator, i))
      ensures before == title[..k]
    {
      BeforeFirstAt(title, TitleSeparator, k);
    }
    Trim(before)
  }

  /** The lead built from a profile hit; its email starts as `NotFound`. */
  function ToLead(h: Hit): (l: Lead)
    requires IsProfileHit(h)
    ensures l.link == h.link.value && Includes(l.link, ProfilePath)
    ensures l.nome == NameFromTitle(h.title) && l.email == NotFound
  {
    Lead(NameFromTitle(h.title), h.link.value, NotFound)
  }

  /** What one hit contributes: its lead if it is a profile page, else nothing. */
  function LeadOf(h: Hit): (r: seq<Lead>)
    ensures |r| <= 1
    ensures forall l :: l in r ==> Includes(l.link, ProfilePath) && l.email == NotFound
  {
    if IsProfileHit(h) then [ToLead(h)] else []
  }

  /** `results.filter(isProfile).map(toLead)`. */
  function ExtractLeads(hits: seq<Hit>): (r: seq<Lead>)
    ensures |r| <= |hits|
    ensures forall l :: l in r ==> Includes(l.link, ProfilePath) && l.email == NotFound
  {
    if hits == [] then [] else LeadOf(hits[0]) + ExtractLeads(hits[1..])
  }

  /** The leads are exactly the leads of the profile hits. */
  lemma {:induction false} ExtractLeadsMembers(hits: seq<Hit>, l: Lead)
    ensures l in ExtractLeads(hits) <==> exists h :: h in hits && IsProfileHit(h) && l == ToLead(h)
  {
    if hits != [] {
      ExtractLeadsMembers(hits[1..], l);
      assert forall h :: h in hits <==> h == hits[0] || h in hits[1..];
    }
  }

  /** Extraction keeps the input order: it distributes over concatenation. */
  lemma {:induction false} ExtractLeadsAppend(a: seq<Hit>, b: seq<Hit>)
    ensures ExtractLeads(a + b) == ExtractLeads(a) + ExtractLeads(b)
  {
    if a == [] {
      assert a + b == b;
    } else {
      var ab := a + b;
      assert ab[0] == a[0] && ab[1..] == a[1..] + b;
      var first, rest, tail := LeadOf(a[0]), ExtractLeads(a[1..]), ExtractLeads(b);
      ExtractLeadsAppend(a[1..], b);
      AppendAssociative(first, rest, tail);
    }
  }

  /** A hit that is not a profile page yields no lead; a profile page yields its own lead. */
  lemma ExtractLeadsSingle(h: Hit)
    ensures ExtractLeads([h]) == if IsProfileHit(h) then [ToLead(h)] else []
  {
    assert [h][1..] == [];
    assert ExtractLeads([h]) == LeadOf(h) + [];
  }

  /** When every hit is a profile page there is one lead per hit, at the same position. */
  lemma {:induction false} ExtractLeadsAllProfiles(hits: seq<Hit>)
    requires forall i :: 0 <= i < |hits| ==> IsProfileHit(hits[i])
    ensures |ExtractLeads(hits)| == |hits|
    ensures forall i :: 0 <= i < |hits| ==> ExtractLeads(hits)[i] == ToLead(hits[i])
  {
    if hits != [] {
      ExtractLeadsAllProfiles(hits[1..]);
    }
  }

  // ---------------------------------------------------------------------
  // CSV text
  // ---------------------------------------------------------------------

  /** `${l.nome};${l.link};${l.email}`. */
  function CsvRow(l: Lead): (r: string)
    ensures StartsWith(r, l.nome + ";") && EndsWith(r, ";" + l.email)
    ensures |r| == |l.nome| + |l.link| + |l.email| + 2
  {
    assert l.nome + ";" + l.link + ";" + l.email == (l.nome + ";") + l.link + (";" + l.email);
    l.nome + ";" + l.link + ";" + l.email
  }

  function CsvRows(leads: seq<Lead>): (r: seq<string>)
    ensures |r| == |leads|
    ensures forall i :: 0 <= i < |leads| ==> r[i] == CsvRow(leads[i])
  {
    seq(|leads|, i requires 0 <= i < |leads| => CsvRow(leads[i]))
  }

  /** The header line, a newline, then the rows joined by newlines. */
  function CsvText(leads: seq<Lead>): (r: string)
    ensures StartsWith(r, CsvHeader + "\n")
  {
    var t := CsvHeader + "\n" + Join(CsvRows(leads), "\n");
    assert t == (CsvHeader + "\n") + Join(CsvRows(leads), "\n");
    t
  }

  predicate FieldsFree(l: Lead, c: char)
  {
    c !in l.nome && c !in l.link && c !in l.email
  }

  /**
   * Without newlines inside the fields, the CSV text is the header line
   * followed by exactly one line per lead, in lead order, and no trailing
   * empty line.
   */
  lemma CsvLines(leads: seq<Lead>)
    requires |leads| > 0
    requires forall i :: 0 <= i < |leads| ==> FieldsFree(leads[i], '\n')
    ensures Split(CsvText(leads), '\n') == [CsvHeader] + CsvRows(leads)
  {
    var rows := CsvRows(leads);
    var lines := [CsvHeader] + rows;
    assert Join(lines, "\n") == CsvHeader + "\n" + Join(rows, "\n") by {
      assert lines[1..] == rows;
    }
    forall i | 0 <= i < |lines| ensures '\n' !in lines[i] {
      if i > 0 {
        assert lines[i] == CsvRow(leads[i - 1]);
      }
    }
    SplitJoin(lines, '\n');
  }

  /** Without semicolons inside the fields, a row splits back into name, link and email. */
  lemma CsvRowFields(l: Lead)
    requires FieldsFree(l, ';')
    ensures Split(CsvRow(l), ';') == [l.nome, l.link, l.email]
  {
    var fields := [l.nome, l.link, l.email];
    assert Join(fields, ";") == CsvRow(l) by {
      assert fields[1..] == [l.link, l.email];
      assert Join([l.link, l.email], ";") == l.link + ";" + l.email;
    }
    SplitJoin(fields, ';');
  }
}
