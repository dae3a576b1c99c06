/**
 * The JavaScript string operations the lead pipeline relies on:
 * `toLowerCase` (ASCII part), `split` on one character, `Array.join`,
 * `includes`, `split(delimiter)[0]`, `trim` and `length`, with the
 * prefix and suffix tests `StartsWith` and `EndsWith` as helpers.
 * Strings are sequences of Unicode code points, written as `seq<char>`;
 * where JavaScript counts UTF-16 code units (`length`), `Utf16Length`
 * counts them.
 */
module Text {

  /** `sub` occurs in `s` starting at index `i`. */
  predicate OccursAt(s: string, sub: string, i: int)
  {
    0 <= i && i + |sub| <= |s| && s[i..i + |sub|] == sub
  }

  /** `s.includes(sub)`: some occurrence of `sub` in `s`. */
  function Includes(s: string, sub: string): (b: bool)
    ensures b <==> exists i :: OccursAt(s, sub, i)
    ensures b ==> |sub| <= |s|
  {
    IncludesFrom(s, sub, 0)
  }

  /** Some occurrence of `sub` in `s` at index `k` or later. */
  function IncludesFrom(s: string, sub: string, k: nat): (b: bool)
    ensures b <==> exists i :: k <= i && OccursAt(s, sub, i)
    decreases |s| - k
  {
    if k + |sub| > |s| then false
    else if s[k..k + |sub|] == sub then assert OccursAt(s, sub, k); true
    else IncludesFrom(s, sub, k + 1)
  }

  /** `s.startsWith(p)`. */
  predicate StartsWith(s: string, p: string)
  {
    |p| <= |s| && s[..|p|] == p
  }

  /** `s.endsWith(p)`. */
  predicate EndsWith(s: string, p: string)
  {
    |p| <= |s| && s[|s| - |p|..] == p
  }

  /**
   * `s.length`: the number of UTF-16 code units, two for a code point
   * above U+FFFF (a surrogate pair) and one for any other.
   */
  function Utf16Length(s: string): (n: nat)
    ensures |s| <= n <= 2 * |s|
  {
    if s == [] then 0
    else (if s[0] as int > 0xFFFF then 2 else 1) + Utf16Length(s[1..])
  }

  /** One code point is two UTF-16 code units above U+FFFF, and one otherwise. */
  lemma Utf16Single(c: char)
    ensures Utf16Length([c]) == if c as int > 0xFFFF then 2 else 1
  {
    assert [c][1..] == [];
  }

  /** The UTF-16 length of a concatenation is the sum of the lengths. */
  lemma {:induction false} Utf16Append(a: string, b: string)
    ensures Utf16Length(a + b) == Utf16Length(a) + Utf16Length(b)
  {
    if a == [] {
      assert a + b == b;
    } else {
      assert (a + b)[0] == a[0] && (a + b)[1..] == a[1..] + b;
      Utf16Append(a[1..], b);
    }
  }

  // ---------------------------------------------------------------------
  // Lower case
  // ---------------------------------------------------------------------

  predicate IsAsciiUpper(c: char)
  {
    'A' <= c <= 'Z'
  }

  function LowerChar(c: char): (r: char)
    ensures !IsAsciiUpper(r)
    ensures !IsAsciiUpper(c) ==> r == c
    ensures IsAsciiUpper(c) ==> r as int == c as int + 32
  {
    if IsAsciiUpper(c) then (c as int + 32) as char else c
  }

  /** `s.toLowerCase()`, restricted to the ASCII letters. */
  function ToLower(s: string): (r: string)
    ensures |r| == |s|
    ensures forall i :: 0 <= i < |s| ==> r[i] == LowerChar(s[i])
  {
    seq(|s|, i requires 0 <= i < |s| => LowerChar(s[i]))
  }

  // ---------------------------------------------------------------------
  // split / join
  // ---------------------------------------------------------------------

  /** Concatenation is associative. */
  lemma AppendAssociative<T>(x: seq<T>, y: seq<T>, z: seq<T>)
    ensures x + (y + z) == (x + y) + z
  {
  }

  /** `parts.join(sep)`; the empty array joins to "". */
  function Join(parts: seq<string>, sep: string): string
  {
    if |parts| == 0 then ""
    else if |parts| == 1 then parts[0]
    else parts[0] + sep + Join(parts[1..], sep)
  }

  /** A join starts with the first piece, ends with the last, and is as long as the pieces and separators together. */
  lemma {:induction false} JoinEnds(parts: seq<string>, sep: string)
    requires |parts| >= 1
    ensures var r := Join(parts, sep);
            StartsWith(r, parts[0]) && EndsWith(r, parts[|parts| - 1])
            && |r| == PiecesLength(parts) + (|parts| - 1) * |sep|
  {
    if |parts| > 1 {
      var rest := Join(parts[1..], sep);
      JoinEnds(parts[1..], sep);
      assert (parts[0] + sep + rest)[..|parts[0]|] == parts[0];
      assert (parts[0] + sep + rest)[|parts[0] + sep|..] == rest;
    }
  }

  /** The total length of the pieces. */
  function PiecesLength(parts: seq<string>): nat
  {
    if parts == [] then 0 else |parts[0]| + PiecesLength(parts[1..])
  }

  /**
   * `s.split(c)` for a one-character separator: the maximal pieces
   * between separators, empty pieces included; "" splits to [""].
   */
  function Split(s: string, c: char): (r: seq<string>)
    ensures |r| >= 1
    ensures forall i :: 0 <= i < |r| ==> c !in r[i]
    ensures Join(r, [c]) == s
  {
    if s == [] then [""]
    else
      var rest := Split(s[1..], c);
      if s[0] == c then [""] + rest
      else [[s[0]] + rest[0]] + rest[1..]
  }

  /** Splitting a join undoes it when no piece holds the separator. */
  lemma {:induction false} SplitJoin(parts: seq<string>, c: char)
    requires |parts| >= 1
    requires forall i :: 0 <= i < |parts| ==> c !in parts[i]
    ensures Split(Join(parts, [c]), c) == parts
  {
    if |parts| == 1 {
      SplitNoSeparator(parts[0], c);
    } else {
      var tail := parts[1..];
      assert forall i :: 0 <= i < |tail| ==> tail[i] == parts[i + 1];
      SplitJoin(tail, c);
      SplitPiece(parts[0], Join(tail, [c]), c);
      assert parts == [parts[0]] + tail;
    }
  }

  /** A separator-free piece followed by the separator is split off as the first piece. */
  lemma {:induction false} SplitPiece(p: string, rest: string, c: char)
    requires c !in p
    ensures Split(p + [c] + rest, c) == [p] + Split(rest, c)
  {
    var s := p + [c] + rest;
    if p == [] {
      assert s[0] == c && s[1..] == rest;
    } else {
      var tail := s[1..];
      assert s[0] == p[0] && tail == p[1..] + [c] + rest;
      SplitPiece(p[1..], rest, c);
      var split := Split(tail, c);
      assert split[0] == p[1..] && split[1..] == Split(rest, c);
      assert Split(s, c) == [[p[0]] + split[0]] + split[1..];
      assert [p[0]] + p[1..] == p;
    }
  }

  /** A string without the separator splits to itself. */
  lemma {:induction false} SplitNoSeparator(s: string, c: char)
    requires c !in s
    ensures Split(s, c) == [s]
  {
    if s != [] {
      SplitNoSeparator(s[1..], c);
      assert [s[0]] + s[1..] == s;
    }
  }

  // ---------------------------------------------------------------------
  // split(delimiter)[0]
  // ---------------------------------------------------------------------

  /**
   * `s.split(d)[0]`: the text before the first occurrence of `d`, or the
   * whole of `s` when `d` does not occur.
   */
  function BeforeFirst(s: string, d: string): (r: string)
    requires |d| > 0
    ensures StartsWith(s, r)
    ensures forall i :: 0 <= i < |r| ==> !OccursAt(s, d, i)
    ensures r == s || OccursAt(s, d, |r|)
  {
    if StartsWith(s, d) then ""
    else if s == [] then ""
    else
      var t := BeforeFirst(s[1..], d);
      BeforeFirstStep(s, d, t);
      [s[0]] + t
  }

  /** An occurrence at `i >= 1` in `s` is an occurrence at `i - 1` in its tail. */
  lemma OccursAtTail(s: string, d: string, i: int)
    requires |s| > 0 && i >= 1
    ensures OccursAt(s, d, i) <==> OccursAt(s[1..], d, i - 1)
  {
    if i + |d| <= |s| {
      assert s[1..][i - 1..i - 1 + |d|] == s[i..i + |d|];
    }
  }

  /** The text before the first `d` in the tail, preceded by the head, is the text before the first `d`. */
  lemma BeforeFirstStep(s: string, d: string, t: string)
    requires |d| > 0 && |s| > 0 && !StartsWith(s, d)
    requires StartsWith(s[1..], t)
    requires forall i :: 0 <= i < |t| ==> !OccursAt(s[1..], d, i)
    requires t == s[1..] || OccursAt(s[1..], d, |t|)
    ensures StartsWith(s, [s[0]] + t)
    ensures forall i :: 0 <= i < |t| + 1 ==> !OccursAt(s, d, i)
    ensures [s[0]] + t == s || OccursAt(s, d, |t| + 1)
  {
    assert !OccursAt(s, d, 0);
    forall i | 1 <= i < |t| + 1 ensures !OccursAt(s, d, i) {
      OccursAtTail(s, d, i);
    }
    OccursAtTail(s, d, |t| + 1);
    assert s[..1 + |t|] == [s[0]] + s[1..][..|t|];
    assert s == [s[0]] + s[1..];
  }

  /** When `d` does not occur in `s`, `s.split(d)[0]` is `s`. */
  lemma BeforeFirstAbsent(s: string, d: string)
    requires |d| > 0
    requires !Includes(s, d)
    ensures BeforeFirst(s, d) == s
  {
  }

  /** When `d` first occurs at `k`, `s.split(d)[0]` is `s[..k]`. */
  lemma BeforeFirstAt(s: string, d: string, k: nat)
    requires |d| > 0
    requires OccursAt(s, d, k)
    requires forall i :: 0 <= i < k ==> !OccursAt(s, d, i)
    ensures BeforeFirst(s, d) == s[..k]
  {
    var r := BeforeFirst(s, d);
    assert |r| == k;
  }

  // ---------------------------------------------------------------------
  // trim
  // ---------------------------------------------------------------------

  /**
   * What `String.prototype.trim` removes: the ECMAScript WhiteSpace
   * (tab, vertical tab, form feed, space, no-break space, the byte order
   * mark and the Unicode space separators) and LineTerminator characters.
   */
  predicate IsJsWhiteSpace(c: char)
  {
    c == '\t' || c == '\n' || c == '\U{000B}' || c == '\U{000C}' || c == '\r' || c == ' '
    || c == '\U{00A0}' || c == '\U{1680}' || ('\U{2000}' <= c <= '\U{200A}')
    || c == '\U{2028}' || c == '\U{2029}' || c == '\U{202F}' || c == '\U{205F}'
    || c == '\U{3000}' || c == '\U{FEFF}'
  }

  function TrimStart(s: string): (r: string)
    ensures EndsWith(s, r)
    ensures r == [] || !IsJsWhiteSpace(r[0])
    ensures forall i :: 0 <= i < |s| - |r| ==> IsJsWhiteSpace(s[i])
  {
    if s != [] && IsJsWhiteSpace(s[0]) then
      var t := TrimStart(s[1..]);
      assert s[|s| - |t|..] == s[1..][|s| - 1 - |t|..];
      t
    else s
  }

  function TrimEnd(s: string): (r: string)
    ensures StartsWith(s, r)
    ensures r == [] || !IsJsWhiteSpace(r[|r| - 1])
    ensures forall i :: |r| <= i < |s| ==> IsJsWhiteSpace(s[i])
  {
    if s != [] && IsJsWhiteSpace(s[|s| - 1]) then
      var t := TrimEnd(s[..|s| - 1]);
      assert s[..|t|] == s[..|s| - 1][..|t|];
      t
    else s
  }

  /**
   * `r` is the part of `s` from index `k` on that is left after removing
   * white space at both ends, every removed character being white space.
   */
  ghost predicate TrimmedAt(s: string, r: string, k: int)
  {
    0 <= k && k + |r| <= |s| && r == s[k..k + |r|]
    && (forall i :: 0 <= i < k ==> IsJsWhiteSpace(s[i]))
    && (forall i :: k + |r| <= i < |s| ==> IsJsWhiteSpace(s[i]))
  }

  /**
   * `s.trim()`: the longest middle part of `s` that neither starts nor ends
   * with white space, all of what is removed being white space.
   */
  function Trim(s: string): (r: string)
    ensures exists k :: TrimmedAt(s, r, k)
    ensures r == [] || (!IsJsWhiteSpace(r[0]) && !IsJsWhiteSpace(r[|r| - 1]))
  {
    var a := TrimStart(s);
    var r := TrimEnd(a);
    TrimWitness(s, a, r);
    r
  }

  lemma TrimWitness(s: string, a: string, r: string)
    requires EndsWith(s, a) && StartsWith(a, r)
    requires forall i :: 0 <= i < |s| - |a| ==> IsJsWhiteSpace(s[i])
    requires forall i :: |r| <= i < |a| ==> IsJsWhiteSpace(a[i])
    ensures TrimmedAt(s, r, |s| - |a|)
  {
    var k := |s| - |a|;
    assert a == s[k..];
    assert r == s[k..k + |r|] by {
      assert r == a[..|r|];
    }
    TrimEndOfSuffix(s, a, r);
  }

  /** White space trimmed from the end of a suffix is white space of the whole. */
  lemma TrimEndOfSuffix(s: string, a: string, r: string)
    requires EndsWith(s, a)
    requires forall i :: |r| <= i < |a| ==> IsJsWhiteSpace(a[i])
    ensures forall i :: |s| - |a| + |r| <= i < |s| ==> IsJsWhiteSpace(s[i])
  {
    var k := |s| - |a|;
    forall i | k + |r| <= i < |s| ensures IsJsWhiteSpace(s[i]) {
      assert s[i] == s[k..][i - k];
    }
  }

  /** A string that neither starts nor ends with white space is its own trim. */
  lemma TrimUntouched(s: string)
    requires s == [] || (!IsJsWhiteSpace(s[0]) && !IsJsWhiteSpace(s[|s| - 1]))
    ensures Trim(s) == s
  {
  }
}
