/**
 * Email candidate generation (`generateEmailPermutations`, server.js:56-77):
 * from a person's full name and a company domain, a short list of likely
 * corporate addresses, in a fixed order and without repetitions.
 */
module EmailPermutations {
  import opened Text

  // ---------------------------------------------------------------------
  // An insertion-ordered set of strings
  // ---------------------------------------------------------------------

  predicate NoDup(s: seq<string>)
  {
    forall i, j :: 0 <= i < j < |s| ==> s[i] != s[j]
  }

  /** The index of the first occurrence of `x` in `xs`. */
  function FirstIndex(xs: seq<string>, x: string): (i: nat)
    requires x in xs
    ensures i < |xs| && xs[i] == x
    ensures forall j :: 0 <= j < i ==> xs[j] != x
  {
    if xs[0] == x then 0 else 1 + FirstIndex(xs[1..], x)
  }

  /**
   * `Array.from(set)` after adding `xs` one by one to an empty `Set`: the
   * elements of `xs` without repetitions, an element that is already
   * present being ignored.
   */
  function Dedup(xs: seq<string>): (r: seq<string>)
    ensures NoDup(r)
    ensures forall x :: x in r <==> x in xs
    ensures |r| <= |xs|
  {
    if xs == [] then []
    else
      var init := xs[..|xs| - 1];
      var x := xs[|xs| - 1];
      assert xs == init + [x];
      var d := Dedup(init);
      if x in d then d else d + [x]
  }

  /** Duplicates are removed by keeping each element's first occurrence: the output lists elements in order of first appearance. */
  lemma {:induction false} DedupKeepsFirstOccurrenceOrder(xs: seq<string>)
    ensures forall i, j :: 0 <= i < j < |Dedup(xs)| ==>
              FirstIndex(xs, Dedup(xs)[i]) < FirstIndex(xs, Dedup(xs)[j])
  {
    if xs != [] {
      var init := xs[..|xs| - 1];
      var x := xs[|xs| - 1];
      assert xs == init + [x];
      DedupKeepsFirstOccurrenceOrder(init);
      var d := Dedup(init);
      var r := Dedup(xs);
      assert r == if x in d then d else d + [x];
      forall i, j | 0 <= i < j < |r| ensures FirstIndex(xs, r[i]) < FirstIndex(xs, r[j]) {
        assert r[i] == d[i] && d[i] in init;
        FirstIndexPrefix(init, [x], d[i]);
        if j < |d| {
          assert r[j] == d[j] && d[j] in init;
          FirstIndexPrefix(init, [x], d[j]);
        } else {
          assert r[j] == x && x !in init;
          assert FirstIndex(xs, x) == |xs| - 1 by {
            forall k | 0 <= k < |xs| - 1 ensures xs[k] != x {
              assert xs[k] == init[k];
            }
          }
        }
      }
    }
  }

  lemma FirstIndexPrefix(a: seq<string>, b: seq<string>, y: string)
    requires y in a
    ensures FirstIndex(a + b, y) == FirstIndex(a, y)
  {
    var k := FirstIndex(a, y);
    var m := FirstIndex(a + b, y);
    assert (a + b)[k] == y;
  }

  /** Without repetitions in the input, nothing is dropped and the order is kept. */
  lemma {:induction false} DedupOfDistinct(xs: seq<string>)
    requires NoDup(xs)
    ensures Dedup(xs) == xs
  {
    if xs != [] {
      var init := xs[..|xs| - 1];
      var x := xs[|xs| - 1];
      DedupOfDistinct(init);
      assert x !in init;
      assert xs == init + [x];
    }
  }

  // ---------------------------------------------------------------------
  // Name tokens
  // ---------------------------------------------------------------------

  /** `parts.filter(p => p.length > 1)`, the length counted in UTF-16 code units. */
  function LongParts(parts: seq<string>): (r: seq<string>)
    ensures forall p :: p in r <==> p in parts && Utf16Length(p) > 1
    ensures |r| <= |parts|
  {
    if parts == [] then []
    else if Utf16Length(parts[0]) > 1 then [parts[0]] + LongParts(parts[1..])
    else LongParts(parts[1..])
  }

  /** One piece survives the filter exactly when it is longer than one code unit. */
  lemma LongPartsOne(p: string)
    ensures LongParts([p]) == if Utf16Length(p) > 1 then [p] else []
  {
    assert [p][1..] == [];
  }

  /** The filter keeps order and multiplicity: it distributes over concatenation. */
  lemma {:induction false} LongPartsAppend(a: seq<string>, b: seq<string>)
    ensures LongParts(a + b) == LongParts(a) + LongParts(b)
  {
    if a == [] {
      assert a + b == b;
    } else {
      assert (a + b)[0] == a[0] && (a + b)[1..] == a[1..] + b;
      LongPartsAppend(a[1..], b);
      AppendAssociative(LongParts([a[0]]), LongParts(a[1..]), LongParts(b));
      LongPartsOne(a[0]);
    }
  }

  /** `fullName.toLowerCase().split(' ').filter(p => p.length > 1)`. */
  function NameParts(fullName: string): (r: seq<string>)
    ensures forall p :: p in r ==> Utf16Length(p) > 1 && p != "" && ' ' !in p
    ensures forall p :: p in r ==> forall c :: c in p ==> !IsAsciiUpper(c)
  {
    var parts := Split(ToLower(fullName), ' ');
    assert forall p :: p in parts ==> forall c :: c in p ==> c in ToLower(fullName) by {
      forall p, c | p in parts && c in p ensures c in ToLower(fullName) {
        JoinContains(parts, [' '], p, c);
      }
    }
    LongParts(parts)
  }

  /**
   * The tokens of a name whose lowered text is some space-free pieces
   * joined by single spaces are exactly the pieces longer than one code
   * unit, in order; empty pieces from runs of spaces are among those dropped.
   */
  lemma NamePartsOfPieces(fullName: string, pieces: seq<string>)
    requires |pieces| >= 1
    requires forall i :: 0 <= i < |pieces| ==> ' ' !in pieces[i]
    requires ToLower(fullName) == Join(pieces, " ")
    ensures NameParts(fullName) == LongParts(pieces)
  {
    SplitJoin(pieces, ' ');
  }

  /** A character of a piece is a character of the joined string. */
  lemma {:induction false} JoinContains(parts: seq<string>, sep: string, p: string, c: char)
    requires p in parts && c in p
    ensures c in Join(parts, sep)
  {
    if |parts| > 1 && parts[0] != p {
      JoinContains(parts[1..], sep, p, c);
      assert Join(parts, sep) == (parts[0] + sep) + Join(parts[1..], sep);
    }
  }

  // ---------------------------------------------------------------------
  // Candidates
  // ---------------------------------------------------------------------

  /** The address `local@domain`. */
  function Address(local: string, domain: string): (r: string)
    ensures EndsWith(r, "@" + domain)
    ensures StartsWith(r, local)
  {
    assert local + "@" + domain == local + ("@" + domain);
    local + "@" + domain
  }

  /**
   * The six conventions of server.js:67-73, in the order they are added:
   * first, first.last, firstlast, initial+last, first_last, last.first.
   */
  function Forms(first: string, last: string, domain: string): (r: seq<string>)
    requires first != ""
    ensures |r| == 6
    ensures forall e :: e in r ==> EndsWith(e, "@" + domain)
  {
    [ Address(first, domain),
      Address(first + "." + last, domain),
      Address(first + last, domain),
      Address([first[0]] + last, domain),
      Address(first + "_" + last, domain),
      Address(last + "." + first, domain) ]
  }

  /** `generateEmailPermutations(fullName, domain)`. */
  function GenerateEmailPermutations(fullName: string, domain: string): seq<string>
  {
    if fullName == "" || domain == "" then []
    else
      var parts := NameParts(fullName);
      if parts == [] then []
      else
        var first := parts[0];
        var last := if |parts| > 1 then parts[|parts| - 1] else "";
        Dedup(if last != "" then Forms(first, last, domain) else [Address(first, domain)])
  }

  /**
   * The list is empty exactly when the name or the domain is empty or no
   * token of two or more characters remains; otherwise it starts with
   * `first@domain`. It never repeats an address, holds at most six, and
   * every address ends with `@domain`.
   */
  lemma GenerateEmailPermutationsShape(fullName: string, domain: string)
    ensures var r := GenerateEmailPermutations(fullName, domain);
            && (r == [] <==> fullName == "" || domain == "" || NameParts(fullName) == [])
            && NoDup(r)
            && |r| <= 6
            && (forall e :: e in r ==> EndsWith(e, "@" + domain))
            && (r != [] ==> r[0] == Address(NameParts(fullName)[0], domain))
  {
    if fullName != "" && domain != "" && NameParts(fullName) != [] {
      var parts := NameParts(fullName);
      var first := parts[0];
      var last := if |parts| > 1 then parts[|parts| - 1] else "";
      var added := if last != "" then Forms(first, last, domain) else [Address(first, domain)];
      DedupFirst(added);
    }
  }

  /** The first element is always kept, and kept first. */
  lemma {:induction false} DedupFirst(xs: seq<string>)
    requires xs != []
    ensures Dedup(xs) != [] && Dedup(xs)[0] == xs[0]
  {
    var init := xs[..|xs| - 1];
    if init != [] {
      DedupFirst(init);
      assert init[0] == xs[0];
    }
  }

  /** A name with one usable token yields exactly `first@domain`. */
  lemma GenerateSingleToken(fullName: string, domain: string)
    requires fullName != "" && domain != ""
    requires |NameParts(fullName)| == 1
    ensures GenerateEmailPermutations(fullName, domain) == [Address(NameParts(fullName)[0], domain)]
  {
  }

  /**
   * A name with two or more usable tokens yields the six conventions over
   * its first and last token, in order, a later repetition being dropped.
   */
  lemma GenerateSeveralTokens(fullName: string, domain: string)
    requires fullName != "" && domain != ""
    requires |NameParts(fullName)| >= 2
    ensures var parts := NameParts(fullName);
            GenerateEmailPermutations(fullName, domain) == Dedup(Forms(parts[0], parts[|parts| - 1], domain))
  {
  }

  /** Middle tokens never matter: names that agree on the first and last token get the same candidates. */
  lemma GenerateIgnoresMiddleTokens(name1: string, name2: string, domain: string)
    requires name1 != "" && name2 != ""
    requires var p1, p2 := NameParts(name1), NameParts(name2);
             |p1| >= 2 && |p2| >= 2 && p1[0] == p2[0] && p1[|p1| - 1] == p2[|p2| - 1]
    ensures GenerateEmailPermutations(name1, domain) == GenerateEmailPermutations(name2, domain)
  {
  }

  /** Tokens of two or more code units, joined by single spaces, are read back as the name's tokens. */
  lemma NamePartsOfJoined(fullName: string, tokens: seq<string>)
    requires |tokens| >= 1
    requires forall i :: 0 <= i < |tokens| ==> Utf16Length(tokens[i]) > 1 && ' ' !in tokens[i]
    requires ToLower(fullName) == Join(tokens, " ")
    ensures NameParts(fullName) == tokens
  {
    NamePartsOfPieces(fullName, tokens);
    LongPartsOfLong(tokens);
  }

  lemma {:induction false} LongPartsOfLong(parts: seq<string>)
    requires forall i :: 0 <= i < |parts| ==> Utf16Length(parts[i]) > 1
    ensures LongParts(parts) == parts
  {
    if parts != [] {
      LongPartsOfLong(parts[1..]);
    }
  }

  /** "João Silva" at acme.com: the six conventions, accent kept (no accent stripping). */
  lemma ExampleJoaoSilva()
    ensures GenerateEmailPermutations("João Silva", "acme.com") ==
      ["joão@acme.com", "joão.silva@acme.com", "joãosilva@acme.com",
       "jsilva@acme.com", "joão_silva@acme.com", "silva.joão@acme.com"]
  {
    JoaoSilvaTokens();
    GenerateSeveralTokens("João Silva", "acme.com");
    JoaoSilvaDedup();
  }

  lemma JoaoSilvaTokens()
    ensures NameParts("João Silva") == ["joão", "silva"]
  {
    assert ToLower("João Silva") == "joão silva";
    assert Join(["joão", "silva"], " ") == "joão silva";
    NamePartsOfJoined("João Silva", ["joão", "silva"]);
  }

  lemma JoaoSilvaDedup()
    ensures Dedup(Forms("joão", "silva", "acme.com")) ==
      ["joão@acme.com", "joão.silva@acme.com", "joãosilva@acme.com",
       "jsilva@acme.com", "joão_silva@acme.com", "silva.joão@acme.com"]
  {
    JoaoSilvaAddresses();
    var six := ["joão@acme.com", "joão.silva@acme.com", "joãosilva@acme.com",
                "jsilva@acme.com", "joão_silva@acme.com", "silva.joão@acme.com"];
    assert NoDup(six);
    DedupOfDistinct(six);
  }

  lemma JoaoSilvaAddresses()
    ensures Forms("joão", "silva", "acme.com") ==
      ["joão@acme.com", "joão.silva@acme.com", "joãosilva@acme.com",
       "jsilva@acme.com", "joão_silva@acme.com", "silva.joão@acme.com"]
  {
    JoaoSilvaFirst();
    JoaoSilvaFirstDotLast();
    JoaoSilvaFirstLast();
    JoaoSilvaInitialLast();
    JoaoSilvaFirstUnderscoreLast();
    JoaoSilvaLastDotFirst();
  }

  lemma JoaoSilvaFirst()
    ensures Address("joão", "acme.com") == "joão@acme.com"
  {
  }

  lemma JoaoSilvaFirstDotLast()
    ensures Address("joão" + "." + "silva", "acme.com") == "joão.silva@acme.com"
  {
  }

  lemma JoaoSilvaFirstLast()
    ensures Address("joão" + "silva", "acme.com") == "joãosilva@acme.com"
  {
  }

  lemma JoaoSilvaInitialLast()
    ensures Address(["joão"[0]] + "silva", "acme.com") == "jsilva@acme.com"
  {
  }

  lemma JoaoSilvaFirstUnderscoreLast()
    ensures Address("joão" + "_" + "silva", "acme.com") == "joão_silva@acme.com"
  {
  }

  lemma JoaoSilvaLastDotFirst()
    ensures Address("silva" + "." + "joão", "acme.com") == "silva.joão@acme.com"
  {
  }

  /** "Maria J Souza": the one-letter middle token is dropped. */
  lemma ExampleMiddleInitial()
    ensures NameParts("Maria J Souza") == ["maria", "souza"]
  {
    MariaJSouzaPieces();
    NamePartsOfPieces("Maria J Souza", ["maria", "j", "souza"]);
    MariaJSouzaLong();
  }

  lemma MariaJSouzaLong()
    ensures LongParts(["maria", "j", "souza"]) == ["maria", "souza"]
  {
    LongPartsAppend(["maria"], ["j", "souza"]);
    LongPartsAppend(["j"], ["souza"]);
  }

  lemma MariaJSouzaPieces()
    ensures ToLower("Maria J Souza") == Join(["maria", "j", "souza"], " ")
  {
    assert ToLower("Maria J Souza") == "maria j souza";
  }

  /** "Ana  Lima", with two spaces: the empty piece between them is dropped. */
  lemma ExampleDoubleSpace()
    ensures NameParts("Ana  Lima") == ["ana", "lima"]
  {
    AnaLimaPieces();
    NamePartsOfPieces("Ana  Lima", ["ana", "", "lima"]);
    AnaLimaLong();
  }

  lemma AnaLimaLong()
    ensures LongParts(["ana", "", "lima"]) == ["ana", "lima"]
  {
    LongPartsAppend(["ana"], ["", "lima"]);
    LongPartsAppend([""], ["lima"]);
  }

  lemma AnaLimaPieces()
    ensures ToLower("Ana  Lima") == Join(["ana", "", "lima"], " ")
  {
    assert ToLower("Ana  Lima") == "ana  lima";
  }

  /**
   * A single character above U+FFFF is two UTF-16 code units, so it is a
   * token of its own: "João Silva 🚀" ends with the token "🚀".
   */
  lemma ExampleAstralToken()
    ensures NameParts("João Silva \U{1F680}") == ["joão", "silva", "\U{1F680}"]
  {
    assert ToLower("João Silva \U{1F680}") == "joão silva \U{1F680}";
    assert Join(["joão", "silva", "\U{1F680}"], " ") == "joão silva \U{1F680}";
    NamePartsOfJoined("João Silva \U{1F680}", ["joão", "silva", "\U{1F680}"]);
  }

  /** A one-letter name has no usable token. */
  lemma ExampleSingleLetter()
    ensures GenerateEmailPermutations("X", "acme.com") == []
  {
    assert ToLower("X") == "x";
    SplitNoSeparator("x", ' ');
  }

  /** "Ana Ana": last.first repeats first.last and is dropped; five addresses remain. */
  lemma ExampleRepeatedToken()
    ensures GenerateEmailPermutations("Ana Ana", "d.com") ==
      ["ana@d.com", "ana.ana@d.com", "anaana@d.com", "aana@d.com", "ana_ana@d.com"]
  {
    AnaAnaTokens();
    GenerateSeveralTokens("Ana Ana", "d.com");
    AnaAnaDedup();
  }

  lemma AnaAnaTokens()
    ensures NameParts("Ana Ana") == ["ana", "ana"]
  {
    assert ToLower("Ana Ana") == "ana ana";
    assert Join(["ana", "ana"], " ") == "ana ana";
    NamePartsOfJoined("Ana Ana", ["ana", "ana"]);
  }

  lemma AnaAnaDedup()
    ensures Dedup(Forms("ana", "ana", "d.com")) ==
      ["ana@d.com", "ana.ana@d.com", "anaana@d.com", "aana@d.com", "ana_ana@d.com"]
  {
    AnaAnaAddresses();
    var five := ["ana@d.com", "ana.ana@d.com", "anaana@d.com", "aana@d.com", "ana_ana@d.com"];
    assert Forms("ana", "ana", "d.com") == five + ["ana.ana@d.com"];
    assert NoDup(five);
    DedupOfDistinct(five);
  }

  lemma AnaAnaAddresses()
    ensures Forms("ana", "ana", "d.com") ==
      ["ana@d.com", "ana.ana@d.com", "anaana@d.com", "aana@d.com", "ana_ana@d.com", "ana.ana@d.com"]
  {
    AnaAnaFirst();
    AnaAnaFirstDotLast();
    AnaAnaFirstLast();
    AnaAnaInitialLast();
    AnaAnaFirstUnderscoreLast();
  }

  lemma AnaAnaFirst()
    ensures Address("ana", "d.com") == "ana@d.com"
  {
  }

  lemma AnaAnaFirstDotLast()
    ensures Address("ana" + "." + "ana", "d.com") == "ana.ana@d.com"
  {
  }

  lemma AnaAnaFirstLast()
    ensures Address("ana" + "ana", "d.com") == "anaana@d.com"
  {
  }

  lemma AnaAnaInitialLast()
    ensures Address(["ana"[0]] + "ana", "d.com") == "aana@d.com"
  {
  }

  lemma AnaAnaFirstUnderscoreLast()
    ensures Address("ana" + "_" + "ana", "d.com") == "ana_ana@d.com"
  {
  }
}
