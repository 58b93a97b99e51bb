/**
  The server's rewriting of the converted document (server.js): the fixed sequence of string
  rewrites and the fixed framing of `transformHtmlWithPerfectCss`, the page template of
  `wrapHtmlFragment`, the plain-text extraction that decides whether the design step runs,
  the escaping and filtering of the key terms, and the choice of the body font.
*/
module ServerRewrite {
  import opened Wrappers
  import opened JsStrings

  // ---------------------------------------------------------------------------------------
  // Underline removal: `/<u>/gi` and then `/<\/u>/gi`, each replaced by nothing
  // ---------------------------------------------------------------------------------------

  function RemoveUnderlines(s: string): string {
    ReplaceAllCI(ReplaceAllCI(s, "<u>", ""), "</u>", "")
  }

  /** Every character of `<u>` and of `</u>` is one of the characters of `</u>`. */
  lemma UnderlineCharsInPattern()
    ensures forall k :: 0 <= k < |"<u>"| ==> InPatternCI("<u>"[k], "</u>")
    ensures forall k :: 0 <= k < |"</u>"| ==> InPatternCI("</u>"[k], "</u>")
  {
    assert CharEqCI("<u>"[0], "</u>"[0]) && CharEqCI("<u>"[1], "</u>"[2]) && CharEqCI("<u>"[2], "</u>"[3]);
    assert CharEqCI("</u>"[1], "</u>"[1]);
  }

  /** The two passes only delete: every character other than `<`, `/`, `u`, `U` and `>` is kept,
      in order. */
  lemma RemoveUnderlinesKeepsOtherChars(s: string)
    ensures DropPatternChars(RemoveUnderlines(s), "</u>") == DropPatternChars(s, "</u>")
  {
    UnderlineCharsInPattern();
    RemoveAllKeepsOtherChars(s, "<u>", "</u>");
    RemoveAllKeepsOtherChars(ReplaceAllCI(s, "<u>", ""), "</u>", "</u>");
  }

  /** Each pass deletes its matches and nothing else: three characters per `<u>`, four per
      `</u>` found after the first pass. */
  lemma RemoveUnderlinesLength(s: string)
    ensures var once := ReplaceAllCI(s, "<u>", "");
      |RemoveUnderlines(s)| == |s| - 3 * CountCI(s, "<u>") - 4 * CountCI(once, "</u>")
  {
    DeletionPassesLength(s, "<u>", "</u>");
  }

  /** Two passes that delete the matches of `p` and then those of `q`. */
  lemma DeletionPassesLength(s: string, p: string, q: string)
    requires |p| > 0 && |q| > 0
    ensures var once := ReplaceAllCI(s, p, "");
      |ReplaceAllCI(once, q, "")| == |s| - |p| * CountCI(s, p) - |q| * CountCI(once, q)
  {
    var once := ReplaceAllCI(s, p, "");
    ReplaceAllLength(s, p, "");
    ReplaceAllLength(once, q, "");
    DeletedLength(CountCI(s, p), |p|);
    DeletedLength(CountCI(once, q), |q|);
  }

  lemma DeletedLength(c: int, n: int)
    ensures c * (|""| - n) == -(n * c)
  {
  }

  /** Markup without underline tags passes through unchanged. */
  lemma RemoveUnderlinesNoMatch(s: string)
    requires !ContainsCI(s, "<u>") && !ContainsCI(s, "</u>")
    ensures RemoveUnderlines(s) == s
  {
    ReplaceAllNoMatch(s, "<u>", "");
    ReplaceAllNoMatch(s, "</u>", "");
  }

  /** One pass is not enough to remove every underline tag: deleting the inner `<u>` of
      `<<u>u>` joins its neighbours into a new one. */
  lemma UnderlineSurvives()
    ensures RemoveUnderlines("<<u>u>") == "<u>"
  {
    var s := "<<u>u>";
    assert !CharEqCI(s[1], "<u>"[1]);
    var t := s[1..];
    assert t[..3] == "<u>" && t[3..] == "u>";
    PrefixCIOfCopy(t, "<u>");
    ShortNoMatch("u>", "<u>");
    ReplaceAllNoMatch("u>", "<u>", "");
    assert ReplaceAllCI(s, "<u>", "") == [s[0]] + ("" + "u>") == "<u>";
    ShortNoMatch("<u>", "</u>");
    ReplaceAllNoMatch("<u>", "</u>", "");
  }

  /** A literal copy of a pattern matches it. */
  lemma PrefixCIOfCopy(s: string, p: string)
    requires |p| <= |s| && s[..|p|] == p
    ensures PrefixCI(s, p)
  {
    assert forall k :: 0 <= k < |p| ==> s[k] == s[..|p|][k];
  }

  // ---------------------------------------------------------------------------------------
  // Inline styles: `/style="([^"]*)"/gi`, each value cleaned of its text-decoration
  // ---------------------------------------------------------------------------------------

  const Decoration := "text-decoration:"

  /** The length of `s` up to and including its first `;`, or all of it. */
  function ThroughSemicolon(s: string): (n: nat)
    ensures n <= |s| && (s != [] ==> n > 0)
  {
    if s == [] then 0 else if s[0] == ';' then 1 else 1 + ThroughSemicolon(s[1..])
  }

  /** The match runs to the first `;`, or to the end when there is none. */
  lemma {:induction false} ThroughSemicolonSpec(s: string)
    ensures var n := ThroughSemicolon(s);
      && (forall k :: 0 <= k < n - 1 ==> s[k] != ';')
      && (n < |s| ==> s[n - 1] == ';')
      && (';' !in s ==> n == |s|)
    decreases |s|
  {
    if s != [] && s[0] != ';' {
      ThroughSemicolonSpec(s[1..]);
      assert forall k :: 1 <= k < |s| ==> s[k] == s[1..][k - 1];
    }
  }

  /** A property name whose matches the cleaning can strip declaration by declaration: it
      starts with a lower-case letter, which no whitespace matches, and holds no `;`. */
  predicate DeclName(p: string) {
    |p| > 0 && 'a' <= p[0] <= 'z' && ';' !in p
  }

  lemma DecorationIsDeclName()
    ensures DeclName(Decoration)
  {
  }

  /** `/p\s*[^;]*;?/gi` replaced by nothing, for a property name `p`: a match runs from the
      name through the next `;`, or to the end of the value when there is none. */
  function StripMatches(s: string, p: string): string
    decreases |s|
  {
    if s == [] then []
    else if PrefixCI(s, p) then StripMatches(s[ThroughSemicolon(s)..], p)
    else [s[0]] + StripMatches(s[1..], p)
  }

  /** `/text-decoration:\s*[^;]*;?/gi` replaced by nothing. */
  function StripDecorations(s: string): string {
    StripMatches(s, Decoration)
  }

  /** The cleaned value of one `style` attribute. */
  function CleanStyle(value: string): string {
    Trim(StripDecorations(value))
  }

  /** What replaces a matched attribute: nothing when the cleaned value is empty. */
  function StyleAttr(cleaned: string): (r: string)
    ensures cleaned == [] <==> r == []
  {
    if cleaned == [] then "" else "style=\"" + cleaned + "\""
  }

  /** The style pass over the markup: at each `style="` (in any case) that has a closing quote,
      the attribute up to that quote is replaced; the scan resumes after it. */
  function StylePass(s: string): string
    decreases |s|
  {
    if s == [] then []
    else if PrefixCI(s, "style=\"") && IndexOfFrom(s, "\"", 7).Some? then
      var q := IndexOfFrom(s, "\"", 7).value;
      StyleAttr(CleanStyle(s[7..q])) + StylePass(s[q + 1..])
    else [s[0]] + StylePass(s[1..])
  }

  /** No character of a match's name part is a `;`. */
  lemma NameHasNoSemicolon(s: string, p: string, k: nat)
    requires ';' !in p && PrefixCI(s, p) && k < |p|
    ensures s[k] != ';'
  {
    assert CharEqCI(s[k], p[k]) && p[k] in p;
    NonLetterMatchesItself(p[k], ';');
  }

  lemma {:induction false} ThroughSemicolonAppend(a: string, b: string)
    requires ';' in a
    ensures ThroughSemicolon(a + b) == ThroughSemicolon(a)
  {
    if a[0] != ';' {
      assert (a + b)[1..] == a[1..] + b;
      ThroughSemicolonAppend(a[1..], b);
    }
  }

  /** A value that ends with `;` is cleaned on its own: no match reaches past that `;`. */
  lemma {:induction false} StripAppend(a: string, b: string, p: string)
    requires DeclName(p)
    requires a == [] || a[|a| - 1] == ';'
    ensures StripMatches(a + b, p) == StripMatches(a, p) + StripMatches(b, p)
    decreases |a|
  {
    if a == [] {
      assert a + b == b;
    } else {
      SemicolonEndsMatch(a, b, p);
      if PrefixCI(a, p) {
        assert a[|a| - 1] in a;
        ThroughSemicolonAppend(a, b);
        var n := ThroughSemicolon(a);
        assert (a + b)[n..] == a[n..] + b;
        StripAppend(a[n..], b, p);
      } else {
        assert (a + b)[1..] == a[1..] + b;
        StripAppend(a[1..], b, p);
      }
    }
  }

  /** A match that starts in `a`, which ends with `;`, lies inside `a`. */
  lemma SemicolonEndsMatch(a: string, b: string, p: string)
    requires ';' !in p
    requires a != [] && a[|a| - 1] == ';'
    ensures PrefixCI(a + b, p) <==> PrefixCI(a, p)
  {
    if |a| < |p| {
      assert (a + b)[|a| - 1] == ';' && p[|a| - 1] in p;
      NonLetterMatchesItself(p[|a| - 1], ';');
    } else {
      assert forall k :: 0 <= k < |p| ==> (a + b)[k] == a[k];
    }
  }

  /** Whitespace never starts a match and is kept: the run of it from `a` to `n` is copied. */
  lemma {:induction false} StripSpaces(s: string, a: nat, n: nat, p: string)
    requires DeclName(p)
    requires a <= n <= |s| && SpaceBetween(s, a, n)
    ensures StripMatches(s[a..], p) == s[a..n] + StripMatches(s[n..], p)
    decreases n - a
  {
    if a == n {
      assert s[a..n] == [];
    } else {
      var rest := StripMatches(s[n..], p);
      StripSpaceAt(s, a, p);
      StripSpaces(s, a + 1, n, p);
      assert s[a..n] == [s[a]] + s[a + 1..n];
      assert [s[a]] + (s[a + 1..n] + rest) == ([s[a]] + s[a + 1..n]) + rest;
    }
  }

  /** One whitespace character is kept. */
  lemma StripSpaceAt(s: string, a: nat, p: string)
    requires DeclName(p)
    requires a < |s| && IsJsSpace(s[a])
    ensures StripMatches(s[a..], p) == [s[a]] + StripMatches(s[a + 1..], p)
  {
    SpaceIsNoLetter(s[a], p[0]);
    assert s[a..][0] == s[a] && s[a..][1..] == s[a + 1..];
    StripSkipsChar(s[a..], p);
  }

  lemma SpaceIsNoLetter(c: char, x: char)
    requires IsJsSpace(c) && 'a' <= x <= 'z'
    ensures !CharEqCI(c, x)
  {
  }

  /** A character that does not match the name's first one starts no match and is kept. */
  lemma StripSkipsChar(s: string, p: string)
    requires |p| > 0 && s != [] && !CharEqCI(s[0], p[0])
    ensures StripMatches(s, p) == [s[0]] + StripMatches(s[1..], p)
  {
  }

  /** A value without a match is kept as it is. */
  lemma {:induction false} StripNoMatch(s: string, p: string)
    requires |p| > 0 && !ContainsCI(s, p)
    ensures StripMatches(s, p) == s
    decreases |s|
  {
    if s != [] {
      StripNoMatch(s[1..], p);
    }
  }

  /** A `;` appended to a value without a match creates none. */
  lemma {:induction false} NoMatchWithSemicolon(d: string, p: string)
    requires DeclName(p)
    requires ';' !in d && !ContainsCI(d, p)
    ensures !ContainsCI(d + ";", p)
    decreases |d|
  {
    if |d| < |p| {
      if PrefixCI(d + ";", p) {
        NameHasNoSemicolon(d + ";", p, |d|);
      }
    } else {
      assert forall k :: 0 <= k < |p| ==> (d + ";")[k] == d[k];
    }
    if d != [] {
      assert (d + ";")[1..] == d[1..] + ";";
      NoMatchWithSemicolon(d[1..], p);
    } else {
      assert !CharEqCI(';', p[0]);
    }
  }

  /** A value that is one declaration of the name, without a `;`, is one match. */
  lemma StripWholeValue(e: string, p: string)
    requires PrefixCI(e, p) && ';' !in e
    ensures StripMatches(e, p) == []
  {
    ThroughSemicolonSpec(e);
    assert e[ThroughSemicolon(e)..] == [];
  }

  /** A whole declaration of the name, with its `;`, is one match. */
  lemma StripNamed(e: string, p: string)
    requires DeclName(p)
    requires PrefixCI(e, p) && ';' !in e
    ensures StripMatches(e + ";", p) == []
  {
    assert forall k :: 0 <= k < |p| ==> (e + ";")[k] == e[k];
    assert ThroughSemicolon(e + ";") == |e| + 1 by {
      ThroughSemicolonSpec(e + ";");
      assert forall k :: 0 <= k < |e| ==> (e + ";")[k] != ';';
      assert (e + ";")[|e|] == ';';
    }
    assert (e + ";")[|e| + 1..] == [];
  }

  /** One declaration of an inline style, without its `;`. */
  predicate IsDecorationDecl(d: string) {
    PrefixCI(TrimStart(d), Decoration)
  }

  /** The declarations the cleaning handles one at a time: no `;` inside, and either a
      text-decoration declaration or one that does not mention `text-decoration:` at all. */
  predicate PlainDecl(d: string) {
    ';' !in d && (IsDecorationDecl(d) || !ContainsCI(d, Decoration))
  }

  /** `d1;d2;...;dn;` */
  function JoinDecls(ds: seq<string>): string {
    if ds == [] then [] else ds[0] + ";" + JoinDecls(ds[1..])
  }

  /** The declarations that are kept, each with its `;`; a text-decoration declaration leaves
      only the whitespace in front of it. */
  function KeptDecls(ds: seq<string>): string {
    if ds == [] then []
    else
      var d := ds[0];
      (if IsDecorationDecl(d) then d[..|d| - |TrimStart(d)|] else d + ";") + KeptDecls(ds[1..])
  }

  lemma StripOneDecl(d: string)
    requires PlainDecl(d)
    ensures StripDecorations(d + ";")
            == if IsDecorationDecl(d) then d[..|d| - |TrimStart(d)|] else d + ";"
  {
    if IsDecorationDecl(d) {
      StripDecorationDecl(d);
    } else {
      StripKeptDecl(d);
    }
  }

  /** A text-decoration declaration leaves only the whitespace in front of it. */
  lemma StripDecorationDecl(d: string)
    requires ';' !in d && IsDecorationDecl(d)
    ensures StripDecorations(d + ";") == d[..|d| - |TrimStart(d)|]
  {
    var e := TrimStart(d);
    var k := |d| - |e|;
    var s := d + ";";
    DeclParts(d);
    DecorationIsDeclName();
    StripSpaces(s, 0, k, Decoration);
    assert s[0..] == s;
    StripNamed(e, Decoration);
    assert d[..k] + [] == d[..k];
  }

  /** A declaration with its `;`: the whitespace in front, then the trimmed declaration, which
      holds no `;`, then the `;`. */
  lemma DeclParts(d: string)
    requires ';' !in d
    ensures var k := |d| - |TrimStart(d)|;
      (d + ";")[..k] == d[..k] && (d + ";")[k..] == TrimStart(d) + ";"
      && SpaceBetween(d + ";", 0, k) && ';' !in TrimStart(d)
  {
    SuffixParts(d, TrimStart(d));
  }

  lemma SuffixParts(d: string, e: string)
    requires ';' !in d
    requires |e| <= |d| && e == d[|d| - |e|..] && SpaceBetween(d, 0, |d| - |e|)
    ensures var k := |d| - |e|;
      (d + ";")[..k] == d[..k] && (d + ";")[k..] == e + ";"
      && SpaceBetween(d + ";", 0, k) && ';' !in e
  {
    var k := |d| - |e|;
    var s := d + ";";
    assert s[..k] == d[..k] && s[k..] == e + ";";
    forall i | 0 <= i < k ensures IsJsSpace(s[i]) {
      assert s[i] == d[i];
    }
    forall i | 0 <= i < |e| ensures e[i] != ';' {
      assert e[i] == d[k + i];
    }
  }

  /** The declaration filter: cleaning a list of declarations drops exactly the
      text-decoration ones, each with its `;`, and keeps the others verbatim and in order. */
  lemma {:induction false} StripDecls(ds: seq<string>)
    requires forall i :: 0 <= i < |ds| ==> PlainDecl(ds[i])
    ensures StripDecorations(JoinDecls(ds)) == KeptDecls(ds)
  {
    if ds != [] {
      DecorationIsDeclName();
      StripAppend(ds[0] + ";", JoinDecls(ds[1..]), Decoration);
      StripOneDecl(ds[0]);
      StripDecls(ds[1..]);
      assert JoinDecls(ds) == (ds[0] + ";") + JoinDecls(ds[1..]);
    }
  }

  /** A declaration followed by a text-decoration declaration: only the first survives, with
      its `;` and the space that separated the two (which the trim then removes). */
  lemma DeclarationThenDecoration(d: string, e: string)
    requires ';' !in d && !ContainsCI(d, Decoration)
    requires ';' !in e && PrefixCI(e, Decoration)
    ensures StripDecorations(d + "; " + e + ";") == d + "; "
  {
    assert d + "; " + e + ";" == (d + ";") + (" " + (e + ";"));
    DecorationIsDeclName();
    StripAppend(d + ";", " " + (e + ";"), Decoration);
    StripKeptDecl(d);
    StripSpacedDecoration(e);
    assert (d + ";") + " " == d + "; ";
  }

  /** A declaration that does not mention `text-decoration:` is kept with its `;`. */
  lemma StripKeptDecl(d: string)
    requires ';' !in d && !ContainsCI(d, Decoration)
    ensures StripDecorations(d + ";") == d + ";"
  {
    DecorationIsDeclName();
    NoMatchWithSemicolon(d, Decoration);
    StripNoMatch(d + ";", Decoration);
  }

  /** A text-decoration declaration after one space leaves only that space. */
  lemma StripSpacedDecoration(e: string)
    requires ';' !in e && PrefixCI(e, Decoration)
    ensures StripDecorations(" " + (e + ";")) == " "
  {
    var t := " " + (e + ";");
    assert IsJsSpace(t[0]);
    DecorationIsDeclName();
    StripSpaces(t, 0, 1, Decoration);
    assert t[0..] == t && t[..1] == " " && t[1..] == e + ";";
    StripNamed(e, Decoration);
    assert " " + [] == " ";
  }

  /** A string shorter than a pattern holds no match of it. */
  lemma {:induction false} ShortNoMatch(s: string, p: string)
    requires 0 < |p| && |s| < |p|
    ensures !ContainsCI(s, p)
    decreases |s|
  {
    if s != [] {
      ShortNoMatch(s[1..], p);
    }
  }

  /** Markup without `style="` passes through the style pass unchanged. */
  lemma {:induction false} StylePassNoMatch(s: string)
    requires !ContainsCI(s, "style=\"")
    ensures StylePass(s) == s
    decreases |s|
  {
    if s != [] {
      StylePassNoMatch(s[1..]);
    }
  }

  /** Markup before an attribute is copied when it has no `style="` and ends with a space,
      which no match can run across. */
  lemma {:induction false} StylePassSkip(a: string, b: string)
    requires !ContainsCI(a, "style=\"") && (a == [] || a[|a| - 1] == ' ')
    ensures StylePass(a + b) == a + StylePass(b)
    decreases |a|
  {
    if a == [] {
      assert a + b == b;
    } else {
      StylePassSkipStep(a, b);
      StylePassSkip(a[1..], b);
      ConsSplit(a, StylePass(b));
    }
  }

  /** One step of the copy: the first character of `a` is copied, and the rest of `a` still
      holds no `style="` and ends with a space. */
  lemma StylePassSkipStep(a: string, b: string)
    requires a != [] && !ContainsCI(a, "style=\"") && a[|a| - 1] == ' '
    ensures StylePass(a + b) == [a[0]] + StylePass(a[1..] + b)
    ensures !ContainsCI(a[1..], "style=\"") && (a[1..] == [] || a[1..][|a[1..]| - 1] == ' ')
  {
    SpaceEndsStyleMatch(a, b);
    ConsTail(a, b);
    StylePassCopies(a + b);
  }

  /** The first character of `a` followed by the rest of `a` and `t` is `a` followed by `t`. */
  lemma ConsSplit(a: string, t: string)
    requires a != []
    ensures [a[0]] + (a[1..] + t) == a + t
  {
    assert a == [a[0]] + a[1..];
  }

  /** A non-empty `a` gives `a + b` its first character, and the rest of `a + b` is the rest
      of `a` followed by `b`. */
  lemma ConsTail(a: string, b: string)
    requires a != []
    ensures a + b != [] && (a + b)[0] == a[0] && (a + b)[1..] == a[1..] + b
  {
  }

  /** Where no attribute starts, the style pass copies the character. */
  lemma StylePassCopies(s: string)
    requires s != [] && !PrefixCI(s, "style=\"")
    ensures StylePass(s) == [s[0]] + StylePass(s[1..])
  {
  }

  /** No `style="` starts in text that holds none and ends with a space. */
  lemma SpaceEndsStyleMatch(a: string, b: string)
    requires a != [] && !ContainsCI(a, "style=\"") && a[|a| - 1] == ' '
    ensures !PrefixCI(a + b, "style=\"")
  {
    if |a| < 7 {
      assert (a + b)[|a| - 1] == ' ';
      assert !CharEqCI(' ', "style=\""[|a| - 1]);
    } else {
      assert forall k :: 0 <= k < 7 ==> (a + b)[k] == a[k];
    }
  }

  /** The style pass on one attribute: `style="value"` becomes the cleaned attribute, or goes
      away when nothing is left of the value. */
  lemma StylePassAttr(pre: string, value: string, post: string)
    requires !ContainsCI(pre, "style=\"") && (pre == [] || pre[|pre| - 1] == ' ')
    requires '"' !in value
    ensures StylePass(pre + ("style=\"" + value + "\"" + post))
            == pre + (StyleAttr(CleanStyle(value)) + StylePass(post))
  {
    StylePassSkip(pre, "style=\"" + value + "\"" + post);
    StylePassAtAttr(value, post);
  }

  lemma StylePassAtAttr(value: string, post: string)
    requires '"' !in value
    ensures StylePass("style=\"" + value + "\"" + post) == StyleAttr(CleanStyle(value)) + StylePass(post)
  {
    var rest := "style=\"" + value + "\"" + post;
    ClosingQuote(value, post);
    assert rest[7..7 + |value|] == value && rest[7 + |value| + 1..] == post;
  }

  /** The attribute's value runs to the first quote after `style="`. */
  lemma ClosingQuote(value: string, post: string)
    requires '"' !in value
    ensures var rest := "style=\"" + value + "\"" + post;
      PrefixCI(rest, "style=\"") && IndexOfFrom(rest, "\"", 7) == Some(7 + |value|)
  {
    var rest := "style=\"" + value + "\"" + post;
    var q := 7 + |value|;
    assert rest[q..q + 1] == "\"";
    assert IsAt(rest, "\"", q);
    forall k | 7 <= k < q ensures !IsAt(rest, "\"", k) {
      assert rest[k] == value[k - 7];
    }
    FirstOccurrence(rest, "\"", 7, q);
  }

  /** A style holding only a text-decoration declaration disappears, attribute and all; the
      space in front of it stays (`<p style="text-decoration: underline">` becomes `<p >`). */
  lemma DecorationOnlyStyleRemoved(pre: string, value: string, post: string)
    requires !ContainsCI(pre, "style=\"") && (pre == [] || pre[|pre| - 1] == ' ')
    requires PrefixCI(value, Decoration) && ';' !in value && '"' !in value
    ensures StylePass(pre + ("style=\"" + value + "\"" + post)) == pre + StylePass(post)
  {
    StylePassAttr(pre, value, post);
    DecorationOnlyCleaned(value);
    assert [] + StylePass(post) == StylePass(post);
  }

  /** A value that is one text-decoration declaration cleans to nothing. */
  lemma DecorationOnlyCleaned(value: string)
    requires PrefixCI(value, Decoration) && ';' !in value
    ensures CleanStyle(value) == [] && StyleAttr(CleanStyle(value)) == []
  {
    StripWholeValue(value, Decoration);
  }

  // ---------------------------------------------------------------------------------------
  // Classes for bare tags: seven `/<tag>/gi` passes
  // ---------------------------------------------------------------------------------------

  /** Each bare tag and the tag with its class, in the order the passes run. */
  const ClassRules: seq<(string, string)> := [
    ("<h1>", "<h1 class=\"heading-1\">"),
    ("<h2>", "<h2 class=\"heading-2\">"),
    ("<h3>", "<h3 class=\"heading-3\">"),
    ("<p>", "<p class=\"paragraph\">"),
    ("<ul>", "<ul class=\"list\">"),
    ("<ol>", "<ol class=\"numbered-list\">"),
    ("<li>", "<li class=\"list-item\">")
  ]

  predicate RulesWellFormed(rules: seq<(string, string)>) {
    forall i :: 0 <= i < |rules| ==> |rules[i].0| > 0
  }

  /** The passes in order, each replacing every case-insensitive match of its tag. */
  function ApplyRules(s: string, rules: seq<(string, string)>): string
    requires RulesWellFormed(rules)
    decreases |rules|
  {
    if rules == [] then s
    else ApplyRules(ReplaceAllCI(s, rules[0].0, rules[0].1), rules[1..])
  }

  function AddClasses(s: string): string {
    ApplyRules(s, ClassRules)
  }

  /** Markup in which no pass finds its tag is unchanged. */
  lemma {:induction false} ApplyRulesNoMatch(s: string, rules: seq<(string, string)>)
    requires RulesWellFormed(rules)
    requires forall i :: 0 <= i < |rules| ==> !ContainsCI(s, rules[i].0)
    ensures ApplyRules(s, rules) == s
  {
    if rules != [] {
      ReplaceAllNoMatch(s, rules[0].0, rules[0].1);
      ApplyRulesNoMatch(s, rules[1..]);
    }
  }

  /** Markup without any of the seven bare tags gains no class. */
  lemma AddClassesNoBareTag(s: string)
    requires forall i :: 0 <= i < |ClassRules| ==> !ContainsCI(s, ClassRules[i].0)
    ensures AddClasses(s) == s
  {
    ApplyRulesNoMatch(s, ClassRules);
  }

  /** A tag with an attribute part, such as the `<p >` the style pass can leave, is no bare tag. */
  lemma TagWithSpaceUntouched()
    ensures AddClasses("<p >") == "<p >"
  {
    forall i | 0 <= i < |ClassRules| ensures !ContainsCI("<p >", ClassRules[i].0) {
      var pat := ClassRules[i].0;
      if i == 3 {
        assert !CharEqCI("<p >"[2], pat[2]);
        assert !CharEqCI("<p >"[1..][0], pat[0]);
        ShortNoMatch("<p >"[2..], pat);
      } else {
        assert |pat| == 4 && !CharEqCI("<p >"[1], pat[1]);
        ShortNoMatch("<p >"[1..], pat);
      }
    }
    AddClassesNoBareTag("<p >");
  }

  /** `x` opens with `<` and holds no other `<`, as every tag of the passes does. */
  predicate OpenOnce(x: string) {
    x != [] && x[0] == '<' && forall k :: 1 <= k < |x| ==> x[k] != '<'
  }

  /** Every tag and every classed tag of the passes opens with its only `<`. */
  predicate TagRules(rules: seq<(string, string)>) {
    RulesWellFormed(rules) && forall j :: 0 <= j < |rules| ==> OpenOnce(rules[j].0) && OpenOnce(rules[j].1)
  }

  /** Somewhere in their common length `x` and `p` differ, even ignoring case. */
  predicate Clash(x: string, p: string) {
    exists k :: 0 <= k < |x| && k < |p| && !CharEqCI(x[k], p[k])
  }

  lemma ClashAppend(x: string, a: string, p: string)
    requires Clash(x, p)
    ensures Clash(x + a, p)
  {
    var k :| 0 <= k < |x| && k < |p| && !CharEqCI(x[k], p[k]);
    assert (x + a)[k] == x[k];
  }

  /** Only `<` itself matches `<` when case is ignored. */
  lemma NotOpenNotCI(c: char, d: char)
    requires c == '<' && d != '<'
    ensures !CharEqCI(c, d) && !CharEqCI(d, c)
  {
  }

  /** A tag pass copies text that holds no `<`. */
  lemma {:induction false} ReplaceNoOpen(s: string, p: string, rep: string)
    requires OpenOnce(p) && '<' !in s
    ensures ReplaceAllCI(s, p, rep) == s
    decreases |s|
  {
    if s != [] {
      NotOpenNotCI(p[0], s[0]);
      ReplaceNoOpen(s[1..], p, rep);
    }
  }

  /** A tag pass finds no match that starts in `a` and runs into a `<` after it. */
  lemma PrefixBeforeOpen(a: string, b: string, p: string)
    requires OpenOnce(p) && a != [] && (b == [] || b[0] == '<')
    ensures PrefixCI(a + b, p) <==> PrefixCI(a, p)
  {
    if |p| > |a| && |a + b| >= |p| {
      NotOpenNotCI((a + b)[|a|], p[|a|]);
    }
    assert forall k :: 0 <= k < |a| ==> (a + b)[k] == a[k];
  }

  /** A tag pass works on the two sides of a `<` separately. */
  lemma {:induction false} ReplaceSplit(a: string, b: string, p: string, rep: string)
    requires OpenOnce(p) && (b == [] || b[0] == '<')
    ensures ReplaceAllCI(a + b, p, rep) == ReplaceAllCI(a, p, rep) + ReplaceAllCI(b, p, rep)
    decreases |a|
  {
    if a == [] {
      assert a + b == b;
    } else {
      PrefixBeforeOpen(a, b, p);
      if PrefixCI(a, p) {
        assert (a + b)[|p|..] == a[|p|..] + b;
        ReplaceSplit(a[|p|..], b, p, rep);
      } else {
        assert (a + b)[1..] == a[1..] + b;
        ReplaceSplit(a[1..], b, p, rep);
      }
    }
  }

  /** The passes work on the two sides of a `<` separately: no tag match runs across it. */
  lemma {:induction false} ApplyRulesSplit(a: string, b: string, rules: seq<(string, string)>)
    requires TagRules(rules) && (b == [] || b[0] == '<')
    ensures ApplyRules(a + b, rules) == ApplyRules(a, rules) + ApplyRules(b, rules)
    decreases |rules|
  {
    if rules != [] {
      var p, rep := rules[0].0, rules[0].1;
      ReplaceSplit(a, b, p, rep);
      var b' := ReplaceAllCI(b, p, rep);
      assert b' == [] || b'[0] == '<' by {
        if b != [] && PrefixCI(b, p) {
          assert b' == rep + ReplaceAllCI(b[|p|..], p, rep);
        }
      }
      ApplyRulesSplit(ReplaceAllCI(a, p, rep), b', rules[1..]);
    }
  }

  /** The passes copy text that holds no `<`. */
  lemma {:induction false} ApplyRulesNoOpen(s: string, rules: seq<(string, string)>)
    requires TagRules(rules) && '<' !in s
    ensures ApplyRules(s, rules) == s
    decreases |rules|
  {
    if rules != [] {
      ReplaceNoOpen(s, rules[0].0, rules[0].1);
      ApplyRulesNoOpen(s, rules[1..]);
    }
  }

  /** A pass copies a tag that clashes with its own, and the text after it up to the next `<`. */
  lemma ReplaceClash(x: string, v: string, p: string, rep: string)
    requires OpenOnce(p) && OpenOnce(x) && '<' !in v && Clash(x, p)
    ensures ReplaceAllCI(x + v, p, rep) == x + v
  {
    var k :| 0 <= k < |x| && k < |p| && !CharEqCI(x[k], p[k]);
    assert (x + v)[k] == x[k];
    assert (x + v)[1..] == x[1..] + v;
    assert forall k :: 0 <= k < |x[1..] + v| ==> (x[1..] + v)[k] != '<' by {
      forall k | 0 <= k < |x[1..] + v| ensures (x[1..] + v)[k] != '<' {
        if k < |x| - 1 {
          assert (x[1..] + v)[k] == x[k + 1];
        } else {
          assert (x[1..] + v)[k] == v[k - |x| + 1];
        }
      }
    }
    ReplaceNoOpen(x[1..] + v, p, rep);
  }

  /** The passes copy a tag that clashes with every one of theirs. */
  lemma {:induction false} ApplyRulesSkip(x: string, v: string, rules: seq<(string, string)>)
    requires TagRules(rules) && OpenOnce(x) && '<' !in v
    requires forall j :: 0 <= j < |rules| ==> Clash(x, rules[j].0)
    ensures ApplyRules(x + v, rules) == x + v
    decreases |rules|
  {
    if rules != [] {
      ReplaceClash(x, v, rules[0].0, rules[0].1);
      ApplyRulesSkip(x, v, rules[1..]);
    }
  }

  /** Pass `k` gives its tag the class: the earlier passes clash with the tag and the later
      ones with the classed tag. */
  lemma {:induction false} ApplyRulesOne(v: string, rules: seq<(string, string)>, k: nat)
    requires TagRules(rules) && k < |rules| && '<' !in v
    requires forall j :: 0 <= j < k ==> Clash(rules[k].0, rules[j].0)
    requires forall j :: k < j < |rules| ==> Clash(rules[k].1, rules[j].0)
    ensures ApplyRules(rules[k].0 + v, rules) == rules[k].1 + v
    decreases k
  {
    var p, rep := rules[0].0, rules[0].1;
    if k == 0 {
      PrefixCIOfCopy(p + v, p);
      assert (p + v)[|p|..] == v;
      ReplaceNoOpen(v, p, rep);
      ApplyRulesSkip(rep, v, rules[1..]);
    } else {
      ReplaceClash(rules[k].0, v, p, rep);
      ApplyRulesOne(v, rules[1..], k - 1);
    }
  }

  /** The tag of rule `i` without its closing `>`: `<h1`, …, `<li`. */
  function Opening(i: nat): (r: string)
    requires i < |ClassRules|
    ensures r + ">" == ClassRules[i].0
  {
    ClassRules[i].0[..|ClassRules[i].0| - 1]
  }

  lemma ClassRulesAreTags()
    ensures TagRules(ClassRules)
  {
    assert OpenOnce("<h1>") && OpenOnce("<h1 class=\"heading-1\">");
    assert OpenOnce("<h2>") && OpenOnce("<h2 class=\"heading-2\">");
    assert OpenOnce("<h3>") && OpenOnce("<h3 class=\"heading-3\">");
    assert OpenOnce("<p>") && OpenOnce("<p class=\"paragraph\">");
    assert OpenOnce("<ul>") && OpenOnce("<ul class=\"list\">");
    assert OpenOnce("<ol>") && OpenOnce("<ol class=\"numbered-list\">");
    assert OpenOnce("<li>") && OpenOnce("<li class=\"list-item\">");
  }

  /** Two different tag names differ within the shorter one, and a classed tag differs from
      every other bare tag. */
  lemma ClassRulesClash(k: nat, j: nat)
    requires k < |ClassRules| && j < |ClassRules| && k != j
    ensures Clash(Opening(k), ClassRules[j].0) && Clash(ClassRules[k].1, ClassRules[j].0)
  {
    var x, y, p := Opening(k), ClassRules[k].1, ClassRules[j].0;
    if k < 3 && j < 3 {
      assert !CharEqCI(x[2], p[2]) && !CharEqCI(y[2], p[2]);
    } else {
      assert !CharEqCI(x[1], p[1]) && !CharEqCI(y[1], p[1]);
    }
  }

  /** Classes are added around each `<` separately. */
  lemma AddClassesSplit(a: string, b: string)
    requires b == [] || b[0] == '<'
    ensures AddClasses(a + b) == AddClasses(a) + AddClasses(b)
  {
    ClassRulesAreTags();
    ApplyRulesSplit(a, b, ClassRules);
  }

  /** Each bare tag clashes with the tags of the other passes, and its classed tag with them too. */
  lemma ClassRulesOrdered(i: nat)
    requires i < |ClassRules|
    ensures forall j :: 0 <= j < i ==> Clash(ClassRules[i].0, ClassRules[j].0)
    ensures forall j :: i < j < |ClassRules| ==> Clash(ClassRules[i].1, ClassRules[j].0)
  {
    forall j | 0 <= j < |ClassRules| && j != i
      ensures Clash(ClassRules[i].0, ClassRules[j].0) && Clash(ClassRules[i].1, ClassRules[j].0)
    {
      ClassRulesClash(i, j);
      ClashAppend(Opening(i), ">", ClassRules[j].0);
    }
  }

  /** Rule `i` of tag passes gives its tag the class, with text without `<` around it. */
  lemma RulesGiveClass(w: string, v: string, rules: seq<(string, string)>, i: nat)
    requires TagRules(rules) && i < |rules| && '<' !in w && '<' !in v
    requires forall j :: 0 <= j < i ==> Clash(rules[i].0, rules[j].0)
    requires forall j :: i < j < |rules| ==> Clash(rules[i].1, rules[j].0)
    ensures ApplyRules(w + rules[i].0 + v, rules) == w + rules[i].1 + v
  {
    ApplyRulesOne(v, rules, i);
    assert w + rules[i].0 + v == w + (rules[i].0 + v);
    ApplyRulesSplit(w, rules[i].0 + v, rules);
    ApplyRulesNoOpen(w, rules);
  }

  /** A bare tag gains its fixed class; the text around it is kept. */
  lemma BareTagGainsClass(w: string, i: nat, v: string)
    requires i < |ClassRules| && '<' !in w && '<' !in v
    ensures AddClasses(w + ClassRules[i].0 + v) == w + ClassRules[i].1 + v
  {
    ClassRulesAreTags();
    ClassRulesOrdered(i);
    RulesGiveClass(w, v, ClassRules, i);
  }

  /** A tag named like one of the seven but with an attribute part, such as
      `<p class="note">` or `<p >`, is kept as it is. */
  lemma SpacedTagUntouched(i: nat, v: string)
    requires i < |ClassRules| && '<' !in v
    ensures AddClasses(Opening(i) + " " + v) == Opening(i) + " " + v
  {
    ClassRulesAreTags();
    var x := Opening(i) + " ";
    forall j | 0 <= j < |ClassRules|
      ensures Clash(x, ClassRules[j].0)
    {
      if j == i {
        assert x[|Opening(i)|] == ' ' && ClassRules[j].0[|Opening(i)|] == '>';
      } else {
        ClassRulesClash(i, j);
        ClashAppend(Opening(i), " ", ClassRules[j].0);
      }
    }
    assert x[1..] == Opening(i)[1..] + " ";
    ApplyRulesSkip(x, v, ClassRules);
  }

  /** A tag with an attribute part is kept even when a bare tag follows it in the markup,
      and that bare tag still gains its class. */
  lemma SpacedTagBesideBareTag(k: nat, u: string, i: nat, v: string)
    requires k < |ClassRules| && i < |ClassRules| && '<' !in u && '<' !in v
    ensures AddClasses(Opening(k) + " " + u + ClassRules[i].0 + v)
         == Opening(k) + " " + u + ClassRules[i].1 + v
  {
    ClassRulesAreTags();
    ClassRulesOrdered(i);
    SpacedTagUntouched(k, u);
    ApplyRulesOne(v, ClassRules, i);
    RulesJoin(Opening(k) + " " + u, ClassRules[i].0, ClassRules[i].1, v, ClassRules);
  }

  lemma RulesJoin(a: string, t: string, c: string, v: string, rules: seq<(string, string)>)
    requires TagRules(rules) && t != [] && t[0] == '<'
    requires ApplyRules(a, rules) == a && ApplyRules(t + v, rules) == c + v
    ensures ApplyRules(a + t + v, rules) == a + c + v
  {
    ApplyRulesSplit(a, t + v, rules);
    assert a + t + v == a + (t + v);
    assert a + c + v == a + (c + v);
  }

  // ---------------------------------------------------------------------------------------
  // The whole rewrite and its framing
  // ---------------------------------------------------------------------------------------

  /** The rewrites of `transformHtmlWithPerfectCss`, in their order. */
  function Rewrite(html: string): string {
    AddClasses(StylePass(RemoveUnderlines(html)))
  }

  // ---------------------------------------------------------------------------------------
  // Framing
  // ---------------------------------------------------------------------------------------

  const Sticker := "<div class=\"sticker\">\U{2728}</div>"
  const NoteHeader := "<div class=\"note-header\">Aesthetic Notes</div>"
  const PageOpen := "<div class=\"note-page\">" + Sticker + NoteHeader + "<div class=\"note-content\">"
  const PageClose := "</div></div>"

  /** `s` is `open + middle + close`; the middle is what lies between the two. */
  lemma FrameSlices(open: string, middle: string, close: string)
    ensures var s := open + middle + close;
      |s| == |open| + |middle| + |close|
      && s[..|open|] == open && s[|s| - |close|..] == close
      && s[|open|..|s| - |close|] == middle
  {
    var s := open + middle + close;
    assert s[..|open|] == open;
    assert s[|s| - |close|..] == close;
    assert s[|open|..|s| - |close|] == middle;
  }

  /** `transformHtmlWithPerfectCss(inputHtml, customCss)`: the rewritten markup inside the note
      page, under the sticker and the header. The style sheet argument is not used. */
  function Transform(inputHtml: string, customCss: string): (r: string)
    ensures |r| == |PageOpen| + |Rewrite(inputHtml)| + |PageClose|
    ensures r[..|PageOpen|] == PageOpen && r[|r| - |PageClose|..] == PageClose
    ensures r[|PageOpen|..|r| - |PageClose|] == Rewrite(inputHtml)
  {
    FrameSlices(PageOpen, Rewrite(inputHtml), PageClose);
    PageOpen + Rewrite(inputHtml) + PageClose
  }

  /** The note content of a page built by `Transform`. */
  function PageContent(page: string): string
    requires |PageOpen| + |PageClose| <= |page|
  {
    page[|PageOpen|..|page| - |PageClose|]
  }

  /** Taking the content back out of a page gives the rewritten input, whatever style sheet
      was passed. */
  lemma TransformContent(inputHtml: string, customCss: string)
    ensures |PageOpen| + |PageClose| <= |Transform(inputHtml, customCss)|
    ensures PageContent(Transform(inputHtml, customCss)) == Rewrite(inputHtml)
  {
  }

  /** Plain markup, with no underline tag, no `style="` and no bare tag, is framed unchanged. */
  lemma TransformPlain(inputHtml: string, customCss: string)
    requires !ContainsCI(inputHtml, "<u>") && !ContainsCI(inputHtml, "</u>")
    requires !ContainsCI(inputHtml, "style=\"")
    requires forall i :: 0 <= i < |ClassRules| ==> !ContainsCI(inputHtml, ClassRules[i].0)
    ensures Transform(inputHtml, customCss) == PageOpen + inputHtml + PageClose
  {
    RemoveUnderlinesNoMatch(inputHtml);
    StylePassNoMatch(inputHtml);
    AddClassesNoBareTag(inputHtml);
  }

  /** The lines of the page up to the place of the style sheet. */
  const HeadLines: seq<string> := [
    "<!DOCTYPE html>",
    "<html>",
    "<head>",
    "  <meta charset=\"UTF-8\">",
    "  <meta name=\"viewport\" content=\"width=device-width, initial-scale=1.0\">",
    "  <link rel=\"preconnect\" href=\"https://fonts.googleapis.com\">",
    "  <link rel=\"preconnect\" href=\"https://fonts.gstatic.com\" crossorigin>",
    "  <link href=\"https://fonts.googleapis.com/css2?family=Pacifico&family=Patrick+Hand&family=Caveat:wght@400;600;700&family=Handlee&family=Quicksand:wght@400;600;700&family=Poppins:wght@400;600;700&family=Raleway:wght@400;700&family=Nunito:wght@400;600&family=Playfair+Display:wght@400;700&display=swap\" rel=\"stylesheet\">",
    "  <style>",
    "    * { scrollbar-width: none; -ms-overflow-style: none; }",
    "    *::-webkit-scrollbar { display: none; }"
  ]

  /** Each line followed by a line break. */
  function Lines(ls: seq<string>): string {
    if ls == [] then [] else ls[0] + "\n" + Lines(ls[1..])
  }

  const DocumentHead := Lines(HeadLines) + "    "
  const DocumentMiddle := "\n  </style>\n</head>\n<body>\n  "
  const DocumentTail := "\n</body>\n</html>"

  /** `r` is `h`, `c`, `m`, `f` and `t` one after the other, each read back at its offset. */
  predicate FiveParts(r: string, h: string, c: string, m: string, f: string, t: string) {
    |r| == |h| + |c| + |m| + |f| + |t|
    && r[..|h|] == h && r[|h|..|h| + |c|] == c && r[|h| + |c|..|h| + |c| + |m|] == m
    && r[|h| + |c| + |m|..|r| - |t|] == f && r[|r| - |t|..] == t
  }

  /** Any concatenation of five parts has each part at its offset. */
  lemma Concat5Parts(h: string, c: string, m: string, f: string, t: string)
    ensures FiveParts(h + (c + m + f) + t, h, c, m, f, t)
  {
    var r := h + (c + m + f) + t;
    assert r[..|h|] == h;
    assert forall k :: 0 <= k < |c| ==> r[|h| + k] == c[k];
    assert forall k :: 0 <= k < |m| ==> r[|h| + |c| + k] == m[k];
    assert forall k :: 0 <= k < |f| ==> r[|h| + |c| + |m| + k] == f[k];
    assert r[|r| - |t|..] == t;
  }

  /** `wrapHtmlFragment(fragment, dynamicCss)`: the full page, with the style sheet in the head
      after the fixed scrollbar rules and the fragment as the body. */
  function WrapHtmlFragment(fragment: string, dynamicCss: string): (r: string)
    ensures FiveParts(r, DocumentHead, dynamicCss, DocumentMiddle, fragment, DocumentTail)
  {
    Concat5Parts(DocumentHead, dynamicCss, DocumentMiddle, fragment, DocumentTail);
    DocumentHead + (dynamicCss + DocumentMiddle + fragment) + DocumentTail
  }

  /** Pages built with the same style sheet differ exactly when their fragments do. */
  lemma WrapHtmlFragmentInjective(f1: string, f2: string, dynamicCss: string)
    requires WrapHtmlFragment(f1, dynamicCss) == WrapHtmlFragment(f2, dynamicCss)
    ensures f1 == f2
  {
    var r := WrapHtmlFragment(f1, dynamicCss);
    assert |f1| == |f2|;
  }

  // ---------------------------------------------------------------------------------------
  // Plain text of the converted document: `/<[^>]*>/g` to a space, `/\s+/g` to one space, trim
  // ---------------------------------------------------------------------------------------

  /** Every `<` that has a `>` somewhere after it starts a tag, which runs to the first such
      `>` and becomes one space; any other character is copied. */
  function TagsToSpace(s: string): string
    decreases |s|
  {
    if s == [] then []
    else if s[0] == '<' && IndexOfFrom(s, ">", 1).Some? then
      " " + TagsToSpace(s[IndexOfFrom(s, ">", 1).value + 1..])
    else [s[0]] + TagsToSpace(s[1..])
  }

  /** No `<` comes before a `>`: the text holds no tag. */
  predicate NoTag(s: string)
    decreases |s|
  {
    s == [] || (if s[0] == '<' then '>' !in s[1..] else NoTag(s[1..]))
  }

  /** `NoTag` read position by position: no `<` at one index and `>` at a later one. */
  lemma {:induction false} NoTagMeans(s: string)
    ensures NoTag(s) <==> forall i, j :: 0 <= i < j < |s| && s[i] == '<' ==> s[j] != '>'
    decreases |s|
  {
    if s != [] {
      var t := s[1..];
      NoTagMeans(t);
      assert forall j :: 1 <= j < |s| ==> s[j] == t[j - 1];
      if s[0] == '<' {
        if '>' in t {
          var j :| 0 <= j < |t| && t[j] == '>';
          assert s[j + 1] == '>';
        }
      }
    }
  }

  /** Text without `>` holds no tag. */
  lemma {:induction false} NoCloseNoTag(s: string)
    requires '>' !in s
    ensures NoTag(s)
    decreases |s|
  {
    if s != [] {
      assert '>' !in s[1..] by { assert forall c :: c in s[1..] ==> c in s; }
      NoCloseNoTag(s[1..]);
    }
  }

  /** A suffix of text without a tag has none. */
  lemma {:induction false} NoTagDrop(s: string, a: nat)
    requires a <= |s| && NoTag(s)
    ensures NoTag(s[a..])
    decreases a
  {
    if a > 0 {
      if s[0] == '<' {
        NoCloseNoTag(s[1..]);
      }
      NoTagDrop(s[1..], a - 1);
      assert s[1..][a - 1..] == s[a..];
    }
  }

  /** A prefix of text without a tag has none. */
  lemma {:induction false} NoTagTake(s: string, n: nat)
    requires n <= |s| && NoTag(s)
    ensures NoTag(s[..n])
    decreases n
  {
    if n > 0 {
      var t := s[..n];
      assert t[0] == s[0] && t[1..] == s[1..][..n - 1];
      if s[0] == '<' {
        assert '>' !in t[1..] by { assert forall c :: c in s[1..][..n - 1] ==> c in s[1..]; }
      } else {
        NoTagTake(s[1..], n - 1);
      }
    }
  }

  /** Text without `>` is copied. */
  lemma {:induction false} TagsToSpaceNoClose(s: string)
    requires '>' !in s
    ensures TagsToSpace(s) == s
    decreases |s|
  {
    if s != [] {
      assert !IsAt(s, ">", 0) by { assert s[0] in s; }
      if s[0] == '<' {
        forall k | 1 <= k ensures !IsAt(s, ">", k) {
          if k < |s| { assert s[k] in s; }
        }
      }
      assert forall c :: c in s[1..] ==> c in s;
      TagsToSpaceNoClose(s[1..]);
    }
  }

  /** A `<` with no `>` after it stays, and so does everything after it. */
  lemma NoCloseAfter(s: string)
    requires s != [] && s[0] == '<' && IndexOfFrom(s, ">", 1).None?
    ensures '>' !in s[1..]
  {
    forall j | 1 <= j < |s| ensures s[j] != '>' {
      if s[j] == '>' { assert s[j..j + 1] == ">"; assert IsAt(s, ">", j); }
    }
  }

  /** After the tag pass no tag is left. */
  lemma {:induction false} TagsToSpaceNoTag(s: string)
    ensures NoTag(TagsToSpace(s))
    decreases |s|
  {
    if s != [] {
      if s[0] == '<' && IndexOfFrom(s, ">", 1).Some? {
        var q := IndexOfFrom(s, ">", 1).value;
        var r := TagsToSpace(s[q + 1..]);
        TagsToSpaceNoTag(s[q + 1..]);
        assert (" " + r)[0] == ' ' && (" " + r)[1..] == r;
      } else {
        var r := TagsToSpace(s[1..]);
        if s[0] == '<' {
          NoCloseAfter(s);
          TagsToSpaceNoClose(s[1..]);
        } else {
          TagsToSpaceNoTag(s[1..]);
        }
        assert ([s[0]] + r)[0] == s[0] && ([s[0]] + r)[1..] == r;
      }
    }
  }

  /** Text without `<` is copied. */
  lemma {:induction false} TagsToSpaceNoOpen(s: string)
    requires '<' !in s
    ensures TagsToSpace(s) == s
    decreases |s|
  {
    if s != [] {
      assert s[0] in s;
      assert forall c :: c in s[1..] ==> c in s;
      TagsToSpaceNoOpen(s[1..]);
    }
  }

  /** Each maximal run of whitespace becomes one space. */
  function CollapseSpaces(s: string): (r: string)
    decreases |s|
  {
    if s == [] then []
    else if IsJsSpace(s[0]) then
      assert TrimStart(s) != s;
      " " + CollapseSpaces(TrimStart(s))
    else [s[0]] + CollapseSpaces(s[1..])
  }

  /** No two whitespace characters are adjacent, and the only whitespace is the plain space. */
  predicate SingleSpaced(s: string) {
    && (forall i :: 0 <= i < |s| && IsJsSpace(s[i]) ==> s[i] == ' ')
    && (forall i :: 0 <= i < |s| - 1 ==> !SpacePair(s, i))
  }

  /** Whitespace at `i` and at `i + 1`. */
  predicate SpacePair(s: string, i: nat)
    requires i + 1 < |s|
  {
    IsJsSpace(s[i]) && IsJsSpace(s[i + 1])
  }

  /** The collapsed text starts with whitespace exactly when the input does. */
  lemma CollapseFirst(s: string)
    requires s != []
    ensures CollapseSpaces(s) != [] && (IsJsSpace(CollapseSpaces(s)[0]) <==> IsJsSpace(s[0]))
  {
  }

  lemma {:induction false} CollapseSingleSpaced(s: string)
    ensures SingleSpaced(CollapseSpaces(s))
    decreases |s|
  {
    if s != [] {
      var t := if IsJsSpace(s[0]) then TrimStart(s) else s[1..];
      CollapseSingleSpaced(t);
      var r := CollapseSpaces(t);
      if t != [] { CollapseFirst(t); }
      var h := if IsJsSpace(s[0]) then ' ' else s[0];
      assert CollapseSpaces(s) == [h] + r;
      ConsSingleSpaced(h, r);
    }
  }

  /** One character in front of single-spaced text keeps it single-spaced when it is no
      whitespace, or a plain space followed by no whitespace. */
  lemma ConsSingleSpaced(h: char, r: string)
    requires SingleSpaced(r)
    requires IsJsSpace(h) ==> h == ' ' && (r == [] || !IsJsSpace(r[0]))
    ensures SingleSpaced([h] + r)
  {
    var s := [h] + r;
    assert forall j :: 0 <= j < |r| ==> s[j + 1] == r[j];
    forall i | 0 <= i < |s| && IsJsSpace(s[i]) ensures s[i] == ' ' {
      if i > 0 { assert s[i] == r[i - 1]; }
    }
    forall i | 0 <= i < |s| - 1 ensures !SpacePair(s, i) {
      if i > 0 { assert s[i] == r[i - 1] && s[i + 1] == r[i] && !SpacePair(r, i - 1); }
    }
  }

  /** Collapsing only replaces whitespace: every other character of the result is one of the
      input's. */
  lemma {:induction false} CollapseKeepsChars(s: string, c: char)
    requires !IsJsSpace(c) && c in CollapseSpaces(s)
    ensures c in s
    decreases |s|
  {
    if IsJsSpace(s[0]) {
      CollapseKeepsChars(TrimStart(s), c);
    } else if c != s[0] {
      CollapseKeepsChars(s[1..], c);
    }
  }

  lemma {:induction false} CollapseNoTag(s: string)
    requires NoTag(s)
    ensures NoTag(CollapseSpaces(s))
    decreases |s|
  {
    if s != [] {
      var h := if IsJsSpace(s[0]) then ' ' else s[0];
      var t := if IsJsSpace(s[0]) then TrimStart(s) else s[1..];
      var r := CollapseSpaces(t);
      assert CollapseSpaces(s) == [h] + r;
      NoTagCons(h, r);
      if h == '<' {
        assert t == s[1..];
        if '>' in r {
          CollapseKeepsChars(t, '>');
        }
      } else {
        assert t == s[|s| - |t|..];
        NoTagDrop(s, |s| - |t|);
        CollapseNoTag(t);
      }
    }
  }

  lemma NoTagCons(h: char, r: string)
    ensures NoTag([h] + r) <==> if h == '<' then '>' !in r else NoTag(r)
  {
    assert ([h] + r)[0] == h && ([h] + r)[1..] == r;
  }

  /** `textContent` of the upload handler. */
  function ExtractText(simple: string): string {
    Trim(CollapseSpaces(TagsToSpace("<div>" + simple + "</div>")))
  }

  /** Text as `textContent` leaves it after the three passes: no whitespace at either end, no
      whitespace other than single spaces between words, and no tag. */
  predicate PlainText(t: string) {
    (t == [] || (!IsJsSpace(t[0]) && !IsJsSpace(t[|t| - 1]))) && SingleSpaced(t) && NoTag(t)
  }

  /** The extracted text is plain text. */
  lemma ExtractTextShape(simple: string)
    ensures PlainText(ExtractText(simple))
  {
    PassesShape("<div>" + simple + "</div>");
  }

  lemma PassesShape(s: string)
    ensures PlainText(Trim(CollapseSpaces(TagsToSpace(s))))
  {
    var y := TagsToSpace(s);
    TagsToSpaceNoTag(s);
    CollapseSingleSpaced(y);
    CollapseNoTag(y);
    TrimKeepsShape(CollapseSpaces(y));
  }

  /** Trimming cuts a slice out of the text, so it keeps both properties. */
  lemma TrimKeepsShape(x: string)
    requires SingleSpaced(x) && NoTag(x)
    ensures SingleSpaced(Trim(x)) && NoTag(Trim(x))
  {
    TrimmedShape(x, TrimOffset(x), Trim(x));
  }

  lemma TrimmedShape(x: string, a: nat, t: string)
    requires TrimmedAt(x, a, t) && SingleSpaced(x) && NoTag(x)
    ensures SingleSpaced(t) && NoTag(t)
  {
    SliceShape(x, a, t);
  }

  lemma SliceShape(x: string, a: nat, t: string)
    requires a + |t| <= |x| && t == x[a..a + |t|] && SingleSpaced(x) && NoTag(x)
    ensures SingleSpaced(t) && NoTag(t)
  {
    var b := a + |t|;
    assert forall i :: 0 <= i < |t| ==> t[i] == x[a + i];
    forall i | 0 <= i < |t| - 1 ensures !SpacePair(t, i) {
      assert !SpacePair(x, a + i);
    }
    NoTagDrop(x, a);
    NoTagTake(x[a..], b - a);
    assert x[a..][..b - a] == t;
  }

  /** Text before the first `<` is copied by the tag pass. */
  lemma {:induction false} TagsToSpaceCopy(w: string, b: string)
    requires '<' !in w
    ensures TagsToSpace(w + b) == w + TagsToSpace(b)
    decreases |w|
  {
    if w == [] {
      assert w + b == b;
    } else {
      assert w[0] in w;
      assert (w + b)[1..] == w[1..] + b;
      assert forall c :: c in w[1..] ==> c in w;
      TagsToSpaceCopy(w[1..], b);
    }
  }

  /** The `<div>` wrapper the handler adds becomes a space on each side. */
  lemma TagsAroundText(w: string)
    requires '<' !in w
    ensures TagsToSpace("<div>" + w + "</div>") == " " + w + " "
  {
    var s := "<div>" + w + "</div>";
    OpeningTag(s, w + "</div>");
    TagsToSpaceCopy(w, "</div>");
    ClosingTag();
  }

  /** The tag pass turns a leading `<div>` into one space. */
  lemma OpeningTag(s: string, rest: string)
    requires s == "<div>" + rest
    ensures TagsToSpace(s) == " " + TagsToSpace(rest)
  {
    assert s[0] == '<' && s[1] == 'd' && s[2] == 'i' && s[3] == 'v' && s[4] == '>';
    forall k | 1 <= k < 4 ensures !IsAt(s, ">", k) {
      if IsAt(s, ">", k) {
        CharOfOccurrence(s, ">", k, 0);
      }
    }
    assert s[4..5] == ">";
    FirstOccurrence(s, ">", 1, 4);
    assert s[5..] == rest;
  }

  lemma ClosingTag()
    ensures TagsToSpace("</div>") == " "
  {
    var c := "</div>";
    assert c[5..6] == ">";
    forall k | 1 <= k < 5 ensures !IsAt(c, ">", k) {
      if IsAt(c, ">", k) {
        CharOfOccurrence(c, ">", k, 0);
      }
    }
    FirstOccurrence(c, ">", 1, 5);
    assert c[6..] == [];
  }

  predicate NoSpace(w: string) {
    forall i :: 0 <= i < |w| ==> !IsJsSpace(w[i])
  }

  /** Text without whitespace is copied by the collapsing pass. */
  lemma {:induction false} CollapseCopy(w: string, b: string)
    requires NoSpace(w)
    ensures CollapseSpaces(w + b) == w + CollapseSpaces(b)
    decreases |w|
  {
    if w == [] {
      assert w + b == b;
    } else {
      assert (w + b)[1..] == w[1..] + b;
      CollapseCopy(w[1..], b);
    }
  }

  /** One space in front of text that starts with no whitespace is all that trimming the start
      removes. */
  lemma TrimStartOneSpace(x: string)
    requires x != [] && !IsJsSpace(x[0])
    ensures TrimStart(" " + x) == x
  {
    assert (" " + x)[1..] == x;
  }

  lemma CollapseWord(w: string)
    requires w != [] && NoSpace(w)
    ensures CollapseSpaces(" " + w + " ") == " " + w + " "
  {
    assert " " + w + " " == " " + (w + " ");
    TrimStartOneSpace(w + " ");
    CollapseCopy(w, " ");
    assert TrimStart(" ") == [];
  }

  lemma TrimWord(w: string)
    requires w != [] && NoSpace(w)
    ensures Trim(" " + w + " ") == w
  {
    var x := " " + w + " ";
    assert x == " " + (w + " ");
    TrimStartOneSpace(w + " ");
    assert (w + " ")[..|w|] == w;
    assert TrimEnd(w + " ") == TrimEnd(w);
  }

  /** A single word, with no markup and no whitespace, is extracted as it is. */
  lemma ExtractWord(w: string)
    requires w != [] && '<' !in w && NoSpace(w)
    ensures ExtractText(w) == w
  {
    TagsAroundText(w);
    CollapseWord(w);
    TrimWord(w);
  }

  // ---------------------------------------------------------------------------------------
  // The design step: when it runs and what it is shown
  // ---------------------------------------------------------------------------------------

  /** The design step runs only with a configured model and more than fifty characters of
      text. */
  predicate RunsDesignStep(hasModel: bool, text: string) {
    hasModel && |text| > 50
  }

  /** `text.substring(0, 3000)`: the part of the text the prompt carries. */
  function PromptExcerpt(text: string): (r: string)
    ensures |r| <= 3000 && |r| <= |text| && r == text[..|r|]
    ensures |text| <= 3000 ==> r == text
    ensures |text| > 3000 ==> |r| == 3000
  {
    if |text| <= 3000 then text else text[..3000]
  }

  /** A document of one short word never reaches the design step. */
  lemma ShortWordSkipsDesign(hasModel: bool, w: string)
    requires w != [] && '<' !in w && NoSpace(w) && |w| <= 50
    ensures !RunsDesignStep(hasModel, ExtractText(w))
  {
    ExtractWord(w);
  }

  // ---------------------------------------------------------------------------------------
  // Key terms: `term.replace(/[.*+?^${}()|[\]\\]/g, '\\$&')` for each term longer than two
  // ---------------------------------------------------------------------------------------

  /** The characters that have a meaning in a regular expression. */
  const Specials := ".*+?^${}()|[]\\"

  /** Each special character gets one backslash in front; the others are copied. */
  function EscapeRegExp(t: string): (r: string)
    ensures |r| >= |t|
  {
    if t == [] then []
    else (if t[0] in Specials then ['\\', t[0]] else [t[0]]) + EscapeRegExp(t[1..])
  }

  /** Reading a pattern back: a backslash stands for the character after it. */
  function Unescape(e: string): string
    decreases |e|
  {
    if e == [] then []
    else if e[0] == '\\' && |e| >= 2 then [e[1]] + Unescape(e[2..])
    else [e[0]] + Unescape(e[1..])
  }

  /** The number of special characters in `t`. */
  function SpecialCount(t: string): nat {
    if t == [] then 0 else (if t[0] in Specials then 1 else 0) + SpecialCount(t[1..])
  }

  /** Escaping loses nothing: the escaped term reads back as the term. */
  lemma {:induction false} UnescapeEscape(t: string)
    ensures Unescape(EscapeRegExp(t)) == t
  {
    if t != [] {
      UnescapeEscape(t[1..]);
      var e := EscapeRegExp(t);
      if t[0] in Specials {
        assert e[2..] == EscapeRegExp(t[1..]);
      } else {
        assert t[0] != '\\';
        assert e[1..] == EscapeRegExp(t[1..]);
      }
    }
  }

  /** `e` matches its own reading literally: each special character comes as a pair `\c`,
      and every other character stands alone. */
  predicate Literal(e: string)
    decreases |e|
  {
    e == []
    || (|e| >= 2 && e[0] == '\\' && e[1] in Specials && Literal(e[2..]))
    || (e[0] !in Specials && Literal(e[1..]))
  }

  /** The escaped term is a literal pattern. */
  lemma {:induction false} EscapeLiteral(t: string)
    ensures Literal(EscapeRegExp(t))
  {
    if t != [] {
      EscapeLiteral(t[1..]);
      var e := EscapeRegExp(t);
      if t[0] in Specials {
        assert e[2..] == EscapeRegExp(t[1..]);
      } else {
        assert e[1..] == EscapeRegExp(t[1..]);
      }
    }
  }

  /** The escaping is the only literal pattern that reads back as the term: every special
      character gets its backslash, and no other character gets one. */
  lemma {:induction false} LiteralIsEscape(e: string, t: string)
    requires Literal(e) && Unescape(e) == t
    ensures e == EscapeRegExp(t)
    decreases |e|
  {
    if e != [] {
      if e[0] == '\\' {
        assert |e| >= 2 && e[1] in Specials && Literal(e[2..]);
        assert t == [e[1]] + Unescape(e[2..]);
        LiteralIsEscape(e[2..], t[1..]);
        assert e == ['\\', e[1]] + e[2..];
      } else {
        assert e[0] !in Specials && Literal(e[1..]);
        assert t == [e[0]] + Unescape(e[1..]);
        LiteralIsEscape(e[1..], t[1..]);
        assert e == [e[0]] + e[1..];
      }
    }
  }

  /** Exactly one character is added per special character. */
  lemma {:induction false} EscapeLength(t: string)
    ensures |EscapeRegExp(t)| == |t| + SpecialCount(t)
  {
    if t != [] {
      EscapeLength(t[1..]);
    }
  }

  /** A term without special characters is its own pattern. */
  lemma {:induction false} EscapePlain(t: string)
    requires forall i :: 0 <= i < |t| ==> t[i] !in Specials
    ensures EscapeRegExp(t) == t
  {
    if t != [] {
      EscapePlain(t[1..]);
    }
  }

  /** `term && term.length > 2` */
  predicate Eligible(term: Option<string>) {
    Truthy(term) && |term.value| > 2
  }

  /** The key-term pass, term by term: each eligible term's pattern is handed, with the markup
      so far, to `markTerm`, which stands for the word-bounded, case-insensitive replacement
      outside tags. */
  function MarkTerms(html: string, terms: seq<Option<string>>, markTerm: (string, string) -> string): string
    decreases |terms|
  {
    if terms == [] then html
    else
      var prev := MarkTerms(html, terms[..|terms| - 1], markTerm);
      var term := terms[|terms| - 1];
      if Eligible(term) then markTerm(prev, EscapeRegExp(term.value)) else prev
  }

  /** The eligible terms, in order. */
  function EligibleTerms(terms: seq<Option<string>>): (r: seq<Option<string>>)
    ensures |r| <= |terms|
    ensures forall i :: 0 <= i < |r| ==> Eligible(r[i]) && r[i] in terms
  {
    if terms == [] then []
    else
      var rest := EligibleTerms(terms[..|terms| - 1]);
      assert forall t :: t in terms[..|terms| - 1] ==> t in terms;
      rest + (if Eligible(terms[|terms| - 1]) then [terms[|terms| - 1]] else [])
  }

  /** Terms that are missing, empty or too short change nothing: the pass over all terms is
      the pass over the eligible ones. */
  lemma {:induction false} MarkTermsSkipsIneligible(html: string, terms: seq<Option<string>>, markTerm: (string, string) -> string)
    ensures MarkTerms(html, terms, markTerm) == MarkTerms(html, EligibleTerms(terms), markTerm)
    decreases |terms|
  {
    if terms != [] {
      var init := terms[..|terms| - 1];
      MarkTermsSkipsIneligible(html, init, markTerm);
      var e := EligibleTerms(terms);
      if Eligible(terms[|terms| - 1]) {
        assert e[..|e| - 1] == EligibleTerms(init);
      } else {
        assert e == EligibleTerms(init);
      }
    }
  }

  /** With no eligible term the markup is left as it is. */
  lemma {:induction false} MarkTermsNoneEligible(html: string, terms: seq<Option<string>>, markTerm: (string, string) -> string)
    requires forall i :: 0 <= i < |terms| ==> !Eligible(terms[i])
    ensures MarkTerms(html, terms, markTerm) == html
    decreases |terms|
  {
    if terms != [] {
      MarkTermsNoneEligible(html, terms[..|terms| - 1], markTerm);
    }
  }

  /** The upload handler's loop over the design's key terms; with no list, or an empty one,
      the converted markup is used as it is. */
  method HighlightKeyTerms(simple: string, keyTerms: Option<seq<Option<string>>>,
                           markTerm: (string, string) -> string) returns (html: string)
    ensures keyTerms.None? ==> html == simple
    ensures keyTerms.Some? ==> html == MarkTerms(simple, keyTerms.value, markTerm)
  {
    html := simple;
    if keyTerms.Some? && |keyTerms.value| > 0 {
      var terms := keyTerms.value;
      var highlighted := simple;
      for i := 0 to |terms|
        invariant highlighted == MarkTerms(simple, terms[..i], markTerm)
      {
        assert terms[..i + 1][..i] == terms[..i];
        var term := terms[i];
        if Eligible(term) {
          highlighted := markTerm(highlighted, EscapeRegExp(term.value));
        }
      }
      assert terms[..|terms|] == terms;
      html := highlighted;
    }
  }

  // ---------------------------------------------------------------------------------------
  // The body font: `/(patrick hand|caveat|handlee|handwriting|cursive)/i`
  // ---------------------------------------------------------------------------------------

  const DefaultHandwritingFont := "'Patrick Hand', 'Caveat', 'Handlee', cursive"

  /** The font list names a handwriting face or the generic cursive family. */
  predicate HandwritingFont(f: string) {
    || ContainsCI(f, "patrick hand") || ContainsCI(f, "caveat") || ContainsCI(f, "handlee")
    || ContainsCI(f, "handwriting") || ContainsCI(f, "cursive")
  }

  /** A string ending with a pattern contains it. */
  lemma {:induction false} ContainsAtEnd(a: string, p: string)
    requires |p| > 0
    ensures ContainsCI(a + p, p)
    decreases |a|
  {
    if a == [] {
      assert a + p == p;
      assert PrefixCI(p, p);
    } else {
      assert (a + p)[1..] == a[1..] + p;
      ContainsAtEnd(a[1..], p);
    }
  }

  lemma DefaultIsHandwriting()
    ensures HandwritingFont(DefaultHandwritingFont)
  {
    var front := "'Patrick Hand', 'Caveat', 'Handlee', ";
    assert DefaultHandwritingFont == front + "cursive";
    ContainsAtEnd(front, "cursive");
  }

  /** The design's body font is kept when it names a handwriting face or `cursive`; otherwise,
      and when there is none, the default handwriting list is used. */
  function BodyFont(body: Option<string>): (r: string)
    ensures HandwritingFont(r)
    ensures HandwritingFont(OrElse(body, DefaultHandwritingFont)) ==> r == OrElse(body, DefaultHandwritingFont)
    ensures !HandwritingFont(OrElse(body, DefaultHandwritingFont)) ==> r == DefaultHandwritingFont
  {
    DefaultIsHandwriting();
    var candidate := OrElse(body, DefaultHandwritingFont);
    if HandwritingFont(candidate) then candidate else DefaultHandwritingFont
  }
}
