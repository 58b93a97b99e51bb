/**
  The JavaScript string primitives the application relies on, stated over Dafny strings:
  the whitespace set of `\s` and `trim()`, case-insensitive matching of a literal pattern
  (what a `/literal/gi` regular expression does), the global replace it drives, the
  first-occurrence search behind `indexOf`, and the `$` patterns that
  `String.prototype.replace` expands in a replacement string.
*/
module JsStrings {
  import opened Wrappers

  // ---------------------------------------------------------------------------------------
  // Whitespace and trim
  // ---------------------------------------------------------------------------------------

  /** The code points from U+00A0 up of ECMAScript's WhiteSpace and LineTerminator
      productions: no-break space, Ogham space mark, the spaces U+2000 to U+200A, line and
      paragraph separator, narrow no-break space, medium mathematical space, ideographic
      space and the byte order mark. */
  predicate IsWideSpace(c: char) {
    || c == '\U{00A0}' || c == '\U{1680}'
    || ('\U{2000}' <= c <= '\U{200A}')
    || c == '\U{2028}' || c == '\U{2029}' || c == '\U{202F}' || c == '\U{205F}'
    || c == '\U{3000}' || c == '\U{FEFF}'
  }

  /** The characters matched by `\s` and removed by `trim()`: the space, tab, line feed,
      vertical tab, form feed and carriage return, and the wide ones above. */
  predicate IsJsSpace(c: char) {
    c == ' ' || ('\t' <= c <= '\r') || IsWideSpace(c)
  }

  /** Every character of `s` from index `a` up to `b` is whitespace. */
  predicate SpaceBetween(s: string, a: int, b: int)
    requires 0 <= a && b <= |s|
  {
    forall i :: a <= i < b ==> IsJsSpace(s[i])
  }

  predicate AllSpace(s: string) {
    SpaceBetween(s, 0, |s|)
  }

  /** `s.trimStart()`: the longest suffix of `s` that does not start with whitespace. */
  function TrimStart(s: string): (r: string)
    ensures |r| <= |s| && r == s[|s| - |r|..]
    ensures SpaceBetween(s, 0, |s| - |r|)
    ensures r == [] || !IsJsSpace(r[0])
  {
    if s != [] && IsJsSpace(s[0]) then
      var r := TrimStart(s[1..]);
      TrimStartStep(s, r);
      r
    else s
  }

  lemma TrimStartStep(s: string, r: string)
    requires s != [] && IsJsSpace(s[0])
    requires |r| <= |s| - 1 && r == s[1..][|s| - 1 - |r|..]
    requires SpaceBetween(s[1..], 0, |s| - 1 - |r|)
    ensures r == s[|s| - |r|..] && SpaceBetween(s, 0, |s| - |r|)
  {
    forall i | 1 <= i < |s| - |r| ensures IsJsSpace(s[i]) {
      assert s[i] == s[1..][i - 1];
    }
  }

  /** `s.trimEnd()`: the longest prefix of `s` that does not end with whitespace. */
  function TrimEnd(s: string): (r: string)
    ensures |r| <= |s| && r == s[..|r|]
    ensures SpaceBetween(s, |r|, |s|)
    ensures r == [] || !IsJsSpace(r[|r| - 1])
  {
    if s != [] && IsJsSpace(s[|s| - 1]) then
      var r := TrimEnd(s[..|s| - 1]);
      TrimEndStep(s, r);
      r
    else s
  }

  lemma TrimEndStep(s: string, r: string)
    requires s != [] && IsJsSpace(s[|s| - 1])
    requires |r| <= |s| - 1 && r == s[..|s| - 1][..|r|]
    requires SpaceBetween(s[..|s| - 1], |r|, |s| - 1)
    ensures r == s[..|r|] && SpaceBetween(s, |r|, |s|)
  {
    forall i | |r| <= i < |s| - 1 ensures IsJsSpace(s[i]) {
      assert s[i] == s[..|s| - 1][i];
    }
  }

  /** Where `Trim(s)` starts inside `s`. */
  function TrimOffset(s: string): (o: nat)
    ensures o <= |s|
  {
    |s| - |TrimStart(s)|
  }

  /** `r` is `s` trimmed at offset `o`: the slice of `s` from `o` between two runs of
      whitespace, neither starting nor ending with whitespace, and empty exactly when `s` is
      all whitespace. */
  predicate TrimmedAt(s: string, o: nat, r: string) {
    && o + |r| <= |s| && r == s[o..o + |r|]
    && SpaceBetween(s, 0, o) && SpaceBetween(s, o + |r|, |s|)
    && (r == [] || (!IsJsSpace(r[0]) && !IsJsSpace(r[|r| - 1])))
    && (r == [] <==> AllSpace(s))
  }

  /** `s.trim()`: `s` without its leading and trailing whitespace. */
  function Trim(s: string): (r: string)
    ensures TrimmedAt(s, TrimOffset(s), r)
  {
    TrimParts(s, TrimOffset(s), TrimStart(s), TrimEnd(TrimStart(s)));
    TrimEnd(TrimStart(s))
  }

  /** Trimming the end of the trimmed start: given what `TrimStart` and `TrimEnd` promise,
      the result is `s` trimmed at the offset where the trimmed start begins. */
  lemma TrimParts(s: string, o: nat, t: string, r: string)
    ensures (&& o + |t| == |s| && |t| <= |s| && t == s[|s| - |t|..]
             && SpaceBetween(s, 0, |s| - |t|) && (t == [] || !IsJsSpace(t[0]))
             && |r| <= |t| && r == t[..|r|] && SpaceBetween(t, |r|, |t|)
             && (r == [] || !IsJsSpace(r[|r| - 1])))
            ==> TrimmedAt(s, o, r)
  {
    if && o + |t| == |s| && |t| <= |s| && t == s[|s| - |t|..]
       && SpaceBetween(s, 0, |s| - |t|) && (t == [] || !IsJsSpace(t[0]))
       && |r| <= |t| && r == t[..|r|] && SpaceBetween(t, |r|, |t|)
       && (r == [] || !IsJsSpace(r[|r| - 1]))
    {
      forall i | o + |r| <= i < |s| ensures IsJsSpace(s[i]) {
        assert s[i] == t[i - o];
      }
      if r != [] {
        assert r[0] == t[0] && !IsJsSpace(s[o]);
      }
    }
  }

  // ---------------------------------------------------------------------------------------
  // JavaScript truthiness of optional strings
  // ---------------------------------------------------------------------------------------

  /** A string-valued property is truthy when it is present and not empty. */
  predicate Truthy(o: Option<string>) {
    o.Some? && o.value != ""
  }

  /** `o || d` on an optional string. */
  function OrElse(o: Option<string>, d: string): (r: string)
    ensures Truthy(o) ==> r == o.value
    ensures !Truthy(o) ==> r == d
  {
    if Truthy(o) then o.value else d
  }

  /** A template literal `${o}`: an absent property is written as `undefined`. */
  function Interpolate(o: Option<string>): string {
    match o
    case Some(s) => s
    case None => "undefined"
  }

  // ---------------------------------------------------------------------------------------
  // Case-insensitive literal matching (`/literal/i`)
  // ---------------------------------------------------------------------------------------

  /** The case folding of a non-unicode `i` regular expression restricted to the patterns used
      here: every pattern is ASCII, and such a regular expression never folds a non-ASCII
      character onto an ASCII one, so only the 26 ASCII letters fold. */
  function AsciiUpper(c: char): char {
    if 'a' <= c <= 'z' then (c as int - 32) as char else c
  }

  predicate CharEqCI(a: char, b: char) {
    AsciiUpper(a) == AsciiUpper(b)
  }

  lemma NonLetterMatchesItself(c: char, x: char)
    requires !('a' <= x <= 'z') && !('A' <= x <= 'Z')
    ensures CharEqCI(c, x) <==> c == x
  {
  }

  /** `s` starts with a case-insensitive occurrence of `p`. */
  predicate PrefixCI(s: string, p: string) {
    |p| <= |s| && forall k :: 0 <= k < |p| ==> CharEqCI(s[k], p[k])
  }

  /** `s` holds a case-insensitive occurrence of `p` somewhere. */
  predicate ContainsCI(s: string, p: string)
    requires |p| > 0
    decreases |s|
  {
    s != [] && (PrefixCI(s, p) || ContainsCI(s[1..], p))
  }

  /** `s.replace(/p/gi, rep)` for a literal pattern `p` and a replacement without `$`:
      matches are found left to right, do not overlap, and the scan resumes after each one. */
  function ReplaceAllCI(s: string, p: string, rep: string): string
    requires |p| > 0
    decreases |s|
  {
    if s == [] then []
    else if PrefixCI(s, p) then rep + ReplaceAllCI(s[|p|..], p, rep)
    else [s[0]] + ReplaceAllCI(s[1..], p, rep)
  }

  /** The number of matches `ReplaceAllCI` replaces. */
  function CountCI(s: string, p: string): nat
    requires |p| > 0
    decreases |s|
  {
    if s == [] then 0
    else if PrefixCI(s, p) then 1 + CountCI(s[|p|..], p)
    else CountCI(s[1..], p)
  }

  lemma {:induction false} CountPositiveIffContains(s: string, p: string)
    requires |p| > 0
    ensures CountCI(s, p) > 0 <==> ContainsCI(s, p)
    decreases |s|
  {
    if s != [] && !PrefixCI(s, p) {
      CountPositiveIffContains(s[1..], p);
    }
  }

  /** Every replaced match changes the length by `|rep| - |p|`, and nothing else does. */
  lemma {:induction false} ReplaceAllLength(s: string, p: string, rep: string)
    requires |p| > 0
    ensures |ReplaceAllCI(s, p, rep)| == |s| + CountCI(s, p) * (|rep| - |p|)
    decreases |s|
  {
    if s == [] {
    } else if PrefixCI(s, p) {
      ReplaceAllLength(s[|p|..], p, rep);
      MulSucc(CountCI(s[|p|..], p), |rep| - |p|);
    } else {
      ReplaceAllLength(s[1..], p, rep);
      assert CountCI(s, p) == CountCI(s[1..], p);
    }
  }

  /** A string without a match passes through unchanged. */
  lemma {:induction false} ReplaceAllNoMatch(s: string, p: string, rep: string)
    requires |p| > 0 && !ContainsCI(s, p)
    ensures ReplaceAllCI(s, p, rep) == s
    decreases |s|
  {
    if s != [] {
      ReplaceAllNoMatch(s[1..], p, rep);
    }
  }

  /** When the replacement has a different length from the pattern, the pass leaves a string
      unchanged exactly when it holds no match. */
  lemma ReplaceAllUnchangedIff(s: string, p: string, rep: string)
    requires |p| > 0 && |rep| != |p|
    ensures ReplaceAllCI(s, p, rep) == s <==> !ContainsCI(s, p)
  {
    if ContainsCI(s, p) {
      CountPositiveIffContains(s, p);
      ReplaceAllLength(s, p, rep);
      ProductNonZero(CountCI(s, p), |rep| - |p|);
    } else {
      ReplaceAllNoMatch(s, p, rep);
    }
  }

  lemma MulSucc(c: int, d: int)
    ensures (1 + c) * d == d + c * d
  {
  }

  lemma ProductNonZero(c: int, d: int)
    requires c > 0 && d != 0
    ensures c * d != 0
  {
  }

  /** `c` case-insensitively equals some character of `q`. */
  predicate InPatternCI(c: char, q: string) {
    exists k :: 0 <= k < |q| && CharEqCI(c, q[k])
  }

  /** `s` with every character that occurs (case-insensitively) in `q` left out. */
  function DropPatternChars(s: string, q: string): string {
    if s == [] then []
    else (if InPatternCI(s[0], q) then [] else [s[0]]) + DropPatternChars(s[1..], q)
  }

  lemma {:induction false} DropAppend(a: string, b: string, q: string)
    ensures DropPatternChars(a + b, q) == DropPatternChars(a, q) + DropPatternChars(b, q)
  {
    if a != [] {
      var head := if InPatternCI(a[0], q) then [] else [a[0]];
      assert (a + b)[0] == a[0] && (a + b)[1..] == a[1..] + b;
      calc {
        DropPatternChars(a + b, q);
        head + DropPatternChars(a[1..] + b, q);
        { DropAppend(a[1..], b, q); }
        head + (DropPatternChars(a[1..], q) + DropPatternChars(b, q));
        (head + DropPatternChars(a[1..], q)) + DropPatternChars(b, q);
      }
    } else {
      assert a + b == b;
    }
  }

  lemma {:induction false} DropMatched(s: string, p: string, q: string)
    requires PrefixCI(s, p)
    requires forall k :: 0 <= k < |p| ==> InPatternCI(p[k], q)
    ensures DropPatternChars(s[..|p|], q) == []
    decreases |p|
  {
    if p != [] {
      var k :| 0 <= k < |q| && CharEqCI(p[0], q[k]);
      assert CharEqCI(s[0], q[k]);
      assert s[..|p|][1..] == s[1..][..|p[1..]|];
      assert forall j :: 0 <= j < |p[1..]| ==> CharEqCI(s[1..][j], p[1..][j]) by {
        forall j | 0 <= j < |p[1..]| ensures CharEqCI(s[1..][j], p[1..][j]) {
          assert CharEqCI(s[j + 1], p[j + 1]);
        }
      }
      DropMatched(s[1..], p[1..], q);
    }
  }

  lemma DropSkipsMatch(s: string, p: string, q: string)
    requires PrefixCI(s, p)
    requires forall k :: 0 <= k < |p| ==> InPatternCI(p[k], q)
    ensures DropPatternChars(s, q) == DropPatternChars(s[|p|..], q)
  {
    DropMatched(s, p, q);
    assert s == s[..|p|] + s[|p|..];
    DropAppend(s[..|p|], s[|p|..], q);
  }

  /** Deleting every match of `p` keeps, in order, every character that is not one of the
      characters of `q` (which covers those of `p`). */
  lemma {:induction false} RemoveAllKeepsOtherChars(s: string, p: string, q: string)
    requires |p| > 0
    requires forall k :: 0 <= k < |p| ==> InPatternCI(p[k], q)
    ensures DropPatternChars(ReplaceAllCI(s, p, ""), q) == DropPatternChars(s, q)
    decreases |s|
  {
    if s == [] {
    } else if PrefixCI(s, p) {
      assert ReplaceAllCI(s, p, "") == ReplaceAllCI(s[|p|..], p, "");
      RemoveAllKeepsOtherChars(s[|p|..], p, q);
      DropSkipsMatch(s, p, q);
    } else {
      RemoveAllKeepsOtherChars(s[1..], p, q);
      DropAppend([s[0]], ReplaceAllCI(s[1..], p, ""), q);
    }
  }

  // ---------------------------------------------------------------------------------------
  // Case-sensitive search and replace-first
  // ---------------------------------------------------------------------------------------

  /** `p` occurs in `s` at index `k`. */
  predicate IsAt(s: string, p: string, k: nat) {
    k + |p| <= |s| && s[k..k + |p|] == p
  }

  /** `i` is the first index at or after `from` where `p` occurs in `s`. */
  predicate FirstFrom(s: string, p: string, from: nat, i: nat) {
    from <= i && IsAt(s, p, i) && forall k :: from <= k < i ==> !IsAt(s, p, k)
  }

  /** `p` occurs nowhere in `s` at or after `from`. */
  ghost predicate NoneFrom(s: string, p: string, from: nat) {
    forall k :: from <= k ==> !IsAt(s, p, k)
  }

  /** `s.indexOf(p, from)`, as an option: the first occurrence of `p` at or after `from`. */
  function IndexOfFrom(s: string, p: string, from: nat): (r: Option<nat>)
    ensures r.Some? ==> FirstFrom(s, p, from, r.value)
    ensures r.None? ==> NoneFrom(s, p, from)
    decreases |s| - from
  {
    if from + |p| > |s| then None
    else if s[from..from + |p|] == p then Some(from)
    else IndexOfFrom(s, p, from + 1)
  }

  /** GetSubstitution of ECMA-262 for a match without capture groups: in `rep`, `$$` stands for
      `$`, `$&` for the matched text, `` $` `` for the text before it and `$'` for the text after
      it; every other `$` is kept literally. */
  function Substitution(rep: string, matched: string, before: string, after: string): string
    decreases |rep|
  {
    if rep == [] then []
    else if rep[0] == '$' && |rep| >= 2 && rep[1] == '$' then "$" + Substitution(rep[2..], matched, before, after)
    else if rep[0] == '$' && |rep| >= 2 && rep[1] == '&' then matched + Substitution(rep[2..], matched, before, after)
    else if rep[0] == '$' && |rep| >= 2 && rep[1] == '`' then before + Substitution(rep[2..], matched, before, after)
    else if rep[0] == '$' && |rep| >= 2 && rep[1] == '\'' then after + Substitution(rep[2..], matched, before, after)
    else [rep[0]] + Substitution(rep[1..], matched, before, after)
  }

  /** A replacement string without `$` is inserted as it is. */
  lemma {:induction false} SubstitutionPlain(rep: string, matched: string, before: string, after: string)
    requires '$' !in rep
    ensures Substitution(rep, matched, before, after) == rep
    decreases |rep|
  {
    if rep != [] {
      SubstitutionPlain(rep[1..], matched, before, after);
    }
  }

  /** The text from `b` to `e` replaced by the expansion of `rep` for that match. */
  function ReplaceSpan(s: string, rep: string, b: nat, e: nat): string
    requires b <= e <= |s|
  {
    s[..b] + Substitution(rep, s[b..e], s[..b], s[e..]) + s[e..]
  }

  /** A replacement string without `$` goes in as it is. */
  lemma ReplaceSpanPlain(s: string, rep: string, b: nat, e: nat)
    requires b <= e <= |s| && '$' !in rep
    ensures ReplaceSpan(s, rep, b, e) == s[..b] + rep + s[e..]
  {
    SubstitutionPlain(rep, s[b..e], s[..b], s[e..]);
  }

  /** `s.replace(p, rep)` with a string pattern: only the first occurrence is replaced. */
  function ReplaceFirst(s: string, p: string, rep: string): (r: string)
    ensures IndexOfFrom(s, p, 0).None? ==> r == s
  {
    match IndexOfFrom(s, p, 0)
    case None => s
    case Some(k) => ReplaceSpan(s, rep, k, k + |p|)
  }

  // ---------------------------------------------------------------------------------------
  // Occurrences of a pattern whose first character appears nowhere else in it
  // ---------------------------------------------------------------------------------------

  /** `p` starts with `<` and has no other `<`: the shape of every tag searched for here. */
  predicate OpensOnce(p: string) {
    |p| > 0 && p[0] == '<' && forall k :: 0 < k < |p| ==> p[k] != '<'
  }

  /** An occurrence of such a pattern in `a + b`, where `b` starts with `<`, never straddles the
      boundary: it lies inside `a` or inside `b`. */
  lemma NoStraddle(a: string, b: string, p: string, k: nat)
    requires OpensOnce(p) && b != [] && b[0] == '<'
    requires IsAt(a + b, p, k)
    ensures k + |p| <= |a| || |a| <= k
  {
    if k < |a| < k + |p| {
      CharOfOccurrence(a + b, p, k, |a| - k);
      assert false;
    }
  }

  lemma CharOfOccurrence(s: string, p: string, k: nat, j: nat)
    requires IsAt(s, p, k) && j < |p|
    ensures s[k + j] == p[j]
  {
    assert s[k..k + |p|][j] == s[k + j];
  }

  /** Occurrences in `a + b` are exactly the occurrences in `a` and the shifted ones in `b`. */
  lemma OccursInConcat(a: string, b: string, p: string, k: nat)
    requires OpensOnce(p) && b != [] && b[0] == '<'
    ensures IsAt(a + b, p, k) <==> (k + |p| <= |a| && IsAt(a, p, k)) || (|a| <= k && IsAt(b, p, k - |a|))
  {
    if k + |p| <= |a| {
      assert (a + b)[k..k + |p|] == a[k..k + |p|];
    } else if |a| <= k {
      if k + |p| <= |a| + |b| {
        assert (a + b)[k..k + |p|] == b[k - |a|..k - |a| + |p|];
      }
    } else if IsAt(a + b, p, k) {
      NoStraddle(a, b, p, k);
    }
  }

  /** The first occurrence is the one with no occurrence before it. */
  lemma FirstOccurrence(s: string, p: string, from: nat, i: nat)
    requires FirstFrom(s, p, from, i)
    ensures IndexOfFrom(s, p, from) == Some(i)
  {
  }

  /** Without an occurrence in `a`, the occurrences in `a + b` before `|a| + j` are those in
      `b` before `j`. */
  lemma NoEarlyOccurrence(a: string, b: string, p: string, j: nat)
    requires OpensOnce(p) && b != [] && b[0] == '<'
    requires NoneFrom(a, p, 0)
    requires forall k: nat :: k < j ==> !IsAt(b, p, k)
    ensures forall k: nat :: k < |a| + j ==> !IsAt(a + b, p, k)
  {
    forall k: nat | k < |a| + j ensures !IsAt(a + b, p, k) {
      OccursInConcat(a, b, p, k);
    }
  }
}
