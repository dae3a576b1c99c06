/**
 * `escapeHtml` of public/script.js:64-71: a chain of five global
 * single-character replacements, `&` first, then `<`, `>`, `"` and `'`.
 * The chain is shown equal to one left-to-right map from characters to
 * entities, and the properties of the escaped text are proved about it.
 */
module EscapeHtml {
  import opened Text

  /** `s.replace(/c/g, rep)`: every occurrence of `c`, left to right, becomes `rep`. */
  function ReplaceAll(s: string, c: char, rep: string): (r: string)
    ensures c !in rep ==> c !in r
    ensures c !in s ==> r == s
  {
    if s == [] then []
    else (if s[0] == c then rep else [s[0]]) + ReplaceAll(s[1..], c, rep)
  }

  /** Replacing all occurrences distributes over concatenation. */
  lemma {:induction false} ReplaceAllAppend(a: string, b: string, c: char, rep: string)
    ensures ReplaceAll(a + b, c, rep) == ReplaceAll(a, c, rep) + ReplaceAll(b, c, rep)
  {
    if a != [] {
      var head := if a[0] == c then rep else [a[0]];
      assert (a + b)[0] == a[0] && (a + b)[1..] == a[1..] + b;
      assert ReplaceAll(a + b, c, rep) == head + ReplaceAll(a[1..] + b, c, rep);
      assert ReplaceAll(a, c, rep) == head + ReplaceAll(a[1..], c, rep);
      ReplaceAllAppend(a[1..], b, c, rep);
    } else {
      assert a + b == b;
    }
  }

  /** A replace introduces no character that is in neither the text nor the replacement. */
  lemma {:induction false} ReplaceAllIntroducesNothing(s: string, c: char, rep: string, x: char)
    requires x !in s && x !in rep
    ensures x !in ReplaceAll(s, c, rep)
  {
    if s != [] {
      assert x !in s[1..] by {
        assert forall i :: 0 <= i < |s| - 1 ==> s[1..][i] == s[i + 1];
      }
      ReplaceAllIntroducesNothing(s[1..], c, rep, x);
    }
  }

  /** A global replace on one character. */
  lemma ReplaceAllSingle(x: char, c: char, rep: string)
    ensures ReplaceAll([x], c, rep) == if x == c then rep else [x]
  {
    assert [x][1..] == [];
  }

  /** One `.replace(/target/g, entity)` call of the chain. */
  datatype Replacement = Replacement(target: char, entity: string)

  /** The five calls of public/script.js:65-70, in call order. */
  const Replacements: seq<Replacement> :=
    [ Replacement('&', "&amp;"), Replacement('<', "&lt;"), Replacement('>', "&gt;"),
      Replacement('\"', "&quot;"), Replacement('\'', "&#039;") ]

  /** The replacements applied one after the other, each to the previous one's output. */
  function ReplaceChain(s: string, steps: seq<Replacement>): string
    decreases |steps|
  {
    if steps == [] then s
    else ReplaceChain(ReplaceAll(s, steps[0].target, steps[0].entity), steps[1..])
  }

  /** `escapeHtml(unsafe)`: the output contains none of `<`, `>`, `"`, `'`. */
  function EscapeHtml(unsafe: string): (r: string)
    ensures '<' !in r && '>' !in r && '\"' !in r && '\'' !in r
  {
    ReplacementsRemoveMarkup(unsafe);
    ReplaceChain(unsafe, Replacements)
  }

  // ---------------------------------------------------------------------
  // Chains of replacements
  // ---------------------------------------------------------------------

  /** A chain introduces no character that is in neither the text nor any entity. */
  lemma {:induction false} ChainIntroducesNothing(s: string, steps: seq<Replacement>, x: char)
    requires x !in s
    requires forall j :: 0 <= j < |steps| ==> x !in steps[j].entity
    ensures x !in ReplaceChain(s, steps)
    decreases |steps|
  {
    if steps != [] {
      ReplaceAllIntroducesNothing(s, steps[0].target, steps[0].entity, x);
      ChainIntroducesNothing(ReplaceAll(s, steps[0].target, steps[0].entity), steps[1..], x);
    }
  }

  /** A step's target is gone from the output when neither it nor a later step's entity holds it. */
  lemma {:induction false} ChainRemoves(s: string, steps: seq<Replacement>, k: nat)
    requires k < |steps|
    requires forall j :: k <= j < |steps| ==> steps[k].target !in steps[j].entity
    ensures steps[k].target !in ReplaceChain(s, steps)
    decreases |steps|
  {
    var next := ReplaceAll(s, steps[0].target, steps[0].entity);
    var rest := steps[1..];
    if k == 0 {
      assert forall j :: 0 <= j < |rest| ==> rest[j] == steps[j + 1];
      ChainIntroducesNothing(next, rest, steps[0].target);
    } else {
      assert forall j :: k - 1 <= j < |rest| ==> rest[j] == steps[j + 1];
      ChainRemoves(next, rest, k - 1);
    }
  }

  lemma ReplacementsRemoveMarkup(s: string)
    ensures var r := ReplaceChain(s, Replacements);
            '<' !in r && '>' !in r && '\"' !in r && '\'' !in r
  {
    ReplacementsAreEntities();
    forall k, j | 1 <= k <= j < |Replacements|
      ensures Replacements[k].target !in Replacements[j].entity
    {
      ShapedExcludes(Replacements[j].entity, Replacements[k].target);
    }
    ChainRemoves(s, Replacements, 1);
    ChainRemoves(s, Replacements, 2);
    ChainRemoves(s, Replacements, 3);
    ChainRemoves(s, Replacements, 4);
  }

  /** A chain distributes over concatenation. */
  lemma {:induction false} ChainAppend(a: string, b: string, steps: seq<Replacement>)
    ensures ReplaceChain(a + b, steps) == ReplaceChain(a, steps) + ReplaceChain(b, steps)
    decreases |steps|
  {
    if steps != [] {
      var t, e := steps[0].target, steps[0].entity;
      ReplaceAllAppend(a, b, t, e);
      ChainAppend(ReplaceAll(a, t, e), ReplaceAll(b, t, e), steps[1..]);
    }
  }

  /** A text holding no step's target passes through the chain unchanged. */
  lemma {:induction false} ChainUntouched(s: string, steps: seq<Replacement>)
    requires forall j :: 0 <= j < |steps| ==> steps[j].target !in s
    ensures ReplaceChain(s, steps) == s
    decreases |steps|
  {
    if steps != [] {
      ChainUntouched(s, steps[1..]);
    }
  }

  /**
   * No step's target occurs in the entity of an earlier step, so no
   * entity, once produced, is rewritten again.
   */
  ghost predicate SafeChain(steps: seq<Replacement>)
  {
    forall i, j :: 0 <= i < j < |steps| ==> steps[j].target !in steps[i].entity
  }

  /** What a chain makes of one character: the entity of the first step aimed at it, or the character. */
  function Substitute(steps: seq<Replacement>, c: char): string
  {
    if steps == [] then [c]
    else if steps[0].target == c then steps[0].entity
    else Substitute(steps[1..], c)
  }

  /** A safe chain rewrites one character into exactly its substitute. */
  lemma {:induction false} ChainOnChar(c: char, steps: seq<Replacement>)
    requires SafeChain(steps)
    ensures ReplaceChain([c], steps) == Substitute(steps, c)
    decreases |steps|
  {
    if steps != [] {
      var rest := steps[1..];
      assert SafeChain(rest) by {
        forall i, j | 0 <= i < j < |rest| ensures rest[j].target !in rest[i].entity {
          assert rest[j] == steps[j + 1] && rest[i] == steps[i + 1];
        }
      }
      ReplaceAllSingle(c, steps[0].target, steps[0].entity);
      if steps[0].target == c {
        forall j | 0 <= j < |rest| ensures rest[j].target !in steps[0].entity {
          assert rest[j] == steps[j + 1];
        }
        ChainUntouched(steps[0].entity, rest);
      } else {
        ChainOnChar(c, rest);
      }
    }
  }

  /** `&` is replaced first, so the chain of `escapeHtml` is safe. */
  lemma ReplacementsSafe()
    ensures SafeChain(Replacements)
  {
    ReplacementsAreEntities();
    forall i, j | 0 <= i < j < |Replacements|
      ensures Replacements[j].target !in Replacements[i].entity
    {
      ShapedExcludes(Replacements[i].entity, Replacements[j].target);
    }
  }

  // ---------------------------------------------------------------------
  // The chain as one character map
  // ---------------------------------------------------------------------

  /** The characters `escapeHtml` rewrites. */
  predicate IsSpecial(c: char)
  {
    c == '&' || c == '<' || c == '>' || c == '\"' || c == '\''
  }

  /** An entity: `&` followed by characters none of which is special. */
  predicate EntityShaped(e: string)
  {
    |e| > 0 && e[0] == '&' && forall k :: 1 <= k < |e| ==> !IsSpecial(e[k])
  }

  /** A special character other than `&` occurs nowhere in an entity. */
  lemma ShapedExcludes(e: string, x: char)
    requires EntityShaped(e) && IsSpecial(x) && x != '&'
    ensures x !in e
  {
    forall k | 0 <= k < |e| ensures e[k] != x {
      if k > 0 {
        assert !IsSpecial(e[k]);
      }
    }
  }

  /** The entity each special character becomes; any other character stays. */
  function Entity(c: char): (e: string)
    ensures IsSpecial(c) ==> |e| >= 4 && EntityShaped(e)
    ensures !IsSpecial(c) ==> e == [c]
  {
    if c == '&' then "&amp;"
    else if c == '<' then "&lt;"
    else if c == '>' then "&gt;"
    else if c == '\"' then "&quot;"
    else if c == '\'' then "&#039;"
    else [c]
  }

  /** The single-pass reference: each character replaced by its entity, left to right. */
  function EscapeMap(s: string): (r: string)
    ensures |r| >= |s|
  {
    if s == [] then [] else Entity(s[0]) + EscapeMap(s[1..])
  }

  /** Each step of `escapeHtml` aims at a special character and inserts its entity; only the first aims at `&`. */
  lemma ReplacementsAreEntities()
    ensures forall j :: 0 <= j < |Replacements| ==>
              IsSpecial(Replacements[j].target)
              && Replacements[j].entity == Entity(Replacements[j].target)
              && (j > 0 ==> Replacements[j].target != '&')
  {
  }

  /** The chain of `escapeHtml` substitutes each character by its entity. */
  lemma EntityIsSubstitute(c: char)
    ensures Substitute(Replacements, c) == Entity(c)
  {
    var r := Replacements;
    if c != '&' {
      assert Substitute(r, c) == Substitute(r[1..], c);
      if c != '<' {
        assert Substitute(r[1..], c) == Substitute(r[2..], c);
        if c != '>' {
          assert Substitute(r[2..], c) == Substitute(r[3..], c);
          if c != '\"' {
            assert Substitute(r[3..], c) == Substitute(r[4..], c);
            if c != '\'' {
              assert Substitute(r[4..], c) == Substitute(r[5..], c);
            }
          }
        }
      }
    }
  }

  /** The replacement chain distributes over concatenation. */
  lemma EscapeHtmlAppend(a: string, b: string)
    ensures EscapeHtml(a + b) == EscapeHtml(a) + EscapeHtml(b)
  {
    ChainAppend(a, b, Replacements);
  }

  /**
   * The chain turns one character into its entity: an entity produced by
   * an earlier step holds no character a later step replaces, and `&` is
   * replaced before any entity exists.
   */
  lemma EscapeHtmlChar(c: char)
    ensures EscapeHtml([c]) == Entity(c)
  {
    ReplacementsSafe();
    ChainOnChar(c, Replacements);
    EntityIsSubstitute(c);
  }

  /** The replacement chain equals the single left-to-right character map. */
  lemma {:induction false} EscapeHtmlIsMap(s: string)
    ensures EscapeHtml(s) == EscapeMap(s)
  {
    if s != [] {
      assert s == [s[0]] + s[1..];
      EscapeHtmlAppend([s[0]], s[1..]);
      EscapeHtmlChar(s[0]);
      EscapeHtmlIsMap(s[1..]);
    }
  }

  /** What escaping adds to the length: 4 per `&`, 3 per `<` and `>`, 5 per `"` and `'`. */
  function Growth(m: multiset<char>): int
  {
    4 * m['&'] + 3 * m['<'] + 3 * m['>'] + 5 * m['\"'] + 5 * m['\'']
  }

  /**
   * The escaped text is longer than the input by 4 for every `&`, 3 for
   * every `<` and `>`, and 5 for every `"` and `'`.
   */
  lemma EscapeHtmlLength(s: string)
    ensures |EscapeHtml(s)| == |s| + 4 * multiset(s)['&'] + 3 * multiset(s)['<'] + 3 * multiset(s)['>']
                                   + 5 * multiset(s)['\"'] + 5 * multiset(s)['\'']
  {
    EscapeHtmlIsMap(s);
    EscapeMapLength(s);
  }

  lemma {:induction false} EscapeMapLength(s: string)
    ensures |EscapeMap(s)| == |s| + Growth(multiset(s))
  {
    if s != [] {
      var tail := s[1..];
      EscapeMapLength(tail);
      assert s == [s[0]] + tail;
      assert multiset(s) == multiset{s[0]} + multiset(tail);
      EntityLength(s[0]);
      GrowthUnion(multiset{s[0]}, multiset(tail));
    }
  }

  lemma GrowthUnion(a: multiset<char>, b: multiset<char>)
    ensures Growth(a + b) == Growth(a) + Growth(b)
  {
  }

  /** An entity is one character longer than the growth of that character. */
  lemma EntityLength(c: char)
    ensures |Entity(c)| == 1 + Growth(multiset{c})
  {
    var m := multiset{c};
    assert forall x :: m[x] == if x == c then 1 else 0;
  }

  /** The text is returned unchanged exactly when it holds none of the five special characters. */
  lemma EscapeHtmlUnchanged(s: string)
    ensures EscapeHtml(s) == s <==> forall i :: 0 <= i < |s| ==> !IsSpecial(s[i])
  {
    EscapeHtmlIsMap(s);
    EscapeMapUnchanged(s);
  }

  lemma {:induction false} EscapeMapUnchanged(s: string)
    ensures EscapeMap(s) == s <==> forall i :: 0 <= i < |s| ==> !IsSpecial(s[i])
  {
    if s != [] {
      var tail := s[1..];
      EscapeMapUnchanged(tail);
      assert s == [s[0]] + tail;
      assert forall i :: 1 <= i < |s| ==> s[i] == tail[i - 1];
      if IsSpecial(s[0]) {
        assert |EscapeMap(s)| > |s|;
      } else {
        assert EscapeMap(s) == [s[0]] + EscapeMap(tail);
        assert EscapeMap(s) == s <==> EscapeMap(tail) == tail by {
          if EscapeMap(s) == s {
            assert EscapeMap(s)[1..] == EscapeMap(tail);
          }
        }
      }
    }
  }

  /** Any special character in the input leaves an `&` in the output. */
  lemma {:induction false} EscapeMapAmpersand(s: string, i: nat)
    requires i < |s| && IsSpecial(s[i])
    ensures '&' in EscapeMap(s)
  {
    if i == 0 {
      assert EscapeMap(s)[0] == '&';
    } else {
      EscapeMapAmpersand(s[1..], i - 1);
    }
  }

  /**
   * Escaping is not idempotent: when the input holds a special character,
   * escaping the escaped text changes it again.
   */
  lemma EscapeTwiceChanges(s: string)
    requires exists i :: 0 <= i < |s| && IsSpecial(s[i])
    ensures EscapeHtml(EscapeHtml(s)) != EscapeHtml(s)
  {
    var i :| 0 <= i < |s| && IsSpecial(s[i]);
    EscapeHtmlIsMap(s);
    EscapeMapAmpersand(s, i);
    var r := EscapeHtml(s);
    var j :| 0 <= j < |r| && r[j] == '&';
    EscapeHtmlUnchanged(r);
  }

  // ---------------------------------------------------------------------
  // Every `&` of the output opens an entity
  // ---------------------------------------------------------------------

  /** One of the five entities starts at index `i` of `r`. */
  predicate EntityAt(r: string, i: int)
  {
    OccursAt(r, "&amp;", i) || OccursAt(r, "&lt;", i) || OccursAt(r, "&gt;", i)
    || OccursAt(r, "&quot;", i) || OccursAt(r, "&#039;", i)
  }

  /** Every `&` of `r` begins one of the five entities. */
  predicate AmpersandsOpenEntities(r: string)
  {
    forall i :: 0 <= i < |r| && r[i] == '&' ==> EntityAt(r, i)
  }

  lemma OccursAtShift(a: string, b: string, sub: string, j: int)
    requires OccursAt(b, sub, j)
    ensures OccursAt(a + b, sub, |a| + j)
  {
    assert (a + b)[|a| + j..|a| + j + |sub|] == b[j..j + |sub|];
  }

  /** Every `&` of the escaped text begins one of the five entities. */
  lemma EscapeHtmlAmpersands(s: string)
    ensures AmpersandsOpenEntities(EscapeHtml(s))
  {
    EscapeHtmlIsMap(s);
    EscapeMapAmpersands(s);
  }

  lemma {:induction false} EscapeMapAmpersands(s: string)
    ensures AmpersandsOpenEntities(EscapeMap(s))
  {
    if s != [] {
      EscapeMapAmpersands(s[1..]);
      EntityThenOpen(s[0], EscapeMap(s[1..]));
    }
  }

  /** An entity in front of text whose every `&` opens an entity keeps that so. */
  lemma EntityThenOpen(c: char, rest: string)
    requires AmpersandsOpenEntities(rest)
    ensures AmpersandsOpenEntities(Entity(c) + rest)
  {
    var e := Entity(c);
    var r := e + rest;
    forall i | 0 <= i < |r| && r[i] == '&' ensures EntityAt(r, i) {
      if i < |e| {
        assert r[i] == e[i];
        assert i == 0;
        EntityOpens(c, rest);
      } else {
        var j := i - |e|;
        assert rest[j] == r[i];
        EntityAtShift(e, rest, j);
      }
    }
  }

  /** A special character's entity starts an `EntityAt` position. */
  lemma EntityOpens(c: char, rest: string)
    requires IsSpecial(c)
    ensures EntityAt(Entity(c) + rest, 0)
  {
    var e := Entity(c);
    assert (e + rest)[..|e|] == e;
  }

  lemma EntityAtShift(a: string, b: string, j: int)
    requires EntityAt(b, j)
    ensures EntityAt(a + b, |a| + j)
  {
    if OccursAt(b, "&amp;", j) {
      OccursAtShift(a, b, "&amp;", j);
    } else if OccursAt(b, "&lt;", j) {
      OccursAtShift(a, b, "&lt;", j);
    } else if OccursAt(b, "&gt;", j) {
      OccursAtShift(a, b, "&gt;", j);
    } else if OccursAt(b, "&quot;", j) {
      OccursAtShift(a, b, "&quot;", j);
    } else {
      OccursAtShift(a, b, "&#039;", j);
    }
  }

  // ---------------------------------------------------------------------
  // Nothing is escaped twice: decoding the entities gives the input back
  // ---------------------------------------------------------------------

  /** Decodes the five entities, left to right; any other character is kept. */
  function Unescape(r: string): string
    decreases |r|
  {
    if r == [] then []
    else if StartsWith(r, "&amp;") then "&" + Unescape(r[5..])
    else if StartsWith(r, "&lt;") then "<" + Unescape(r[4..])
    else if StartsWith(r, "&gt;") then ">" + Unescape(r[4..])
    else if StartsWith(r, "&quot;") then "\"" + Unescape(r[6..])
    else if StartsWith(r, "&#039;") then "'" + Unescape(r[6..])
    else [r[0]] + Unescape(r[1..])
  }

  /** A text whose character at `i` differs from `p`'s does not start with `p`. */
  lemma NotStartsWith(t: string, p: string, i: nat)
    requires i < |p| && i < |t| && t[i] != p[i]
    ensures !StartsWith(t, p)
  {
    assert |p| <= |t| ==> t[..|p|][i] == t[i];
  }

  /** Decoding an entity followed by more text yields its character first. */
  lemma UnescapeEntity(c: char, rest: string)
    ensures Unescape(Entity(c) + rest) == [c] + Unescape(rest)
  {
    var e := Entity(c);
    var t := e + rest;
    assert t[..|e|] == e && t[|e|..] == rest;
    assert t[0] == e[0];
    if !IsSpecial(c) {
      NotStartsWith(t, "&amp;", 0);
      NotStartsWith(t, "&lt;", 0);
      NotStartsWith(t, "&gt;", 0);
      NotStartsWith(t, "&quot;", 0);
      NotStartsWith(t, "&#039;", 0);
    } else {
      assert t[1] == e[1];
      if c != '&' {
        NotStartsWith(t, "&amp;", 1);
      }
      if c != '&' && c != '<' {
        NotStartsWith(t, "&lt;", 1);
      }
      if c != '&' && c != '<' && c != '>' {
        NotStartsWith(t, "&gt;", 1);
      }
      if c == '\'' {
        NotStartsWith(t, "&quot;", 1);
      }
    }
  }

  /** Decoding the escaped text restores the input: no entity is itself re-escaped. */
  lemma {:induction false} UnescapeEscapeHtml(s: string)
    ensures Unescape(EscapeHtml(s)) == s
  {
    EscapeHtmlIsMap(s);
    UnescapeEscapeMap(s);
  }

  lemma {:induction false} UnescapeEscapeMap(s: string)
    ensures Unescape(EscapeMap(s)) == s
  {
    if s != [] {
      UnescapeEntity(s[0], EscapeMap(s[1..]));
      UnescapeEscapeMap(s[1..]);
      assert s == [s[0]] + s[1..];
    }
  }

  /** Escaping is injective: different inputs never escape to the same text. */
  lemma EscapeHtmlInjective(a: string, b: string)
    requires EscapeHtml(a) == EscapeHtml(b)
    ensures a == b
  {
    UnescapeEscapeHtml(a);
    UnescapeEscapeHtml(b);
  }
}
