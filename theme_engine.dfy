/**
  The theme engine of the editor page (public/theme-engine.js): applying a named theme sets the
  text of the page's one `theme-style` element and splices the sheet into the preview frame's
  document; starting the engine fills the theme menu with one option per theme.
*/
module ThemeEngine {
  import opened Wrappers
  import opened JsStrings
  import opened ThemeSheet

  // ---------------------------------------------------------------------------------------
  // The frame splice: `/<style id="frame-theme">.*?<\/style>/s`, then the first `</head>`
  // ---------------------------------------------------------------------------------------

  const FrameOpen := "<style id=\"frame-theme\">"
  const StyleClose := "</style>"
  const HeadClose := "</head>"

  /** The style element the engine puts into the frame's document. */
  function FrameTag(css: string): string {
    FrameOpen + css + StyleClose
  }

  /** The expression matches at `p`: an opening tag there and a closing tag somewhere after it
      (the lazy `.*?` then stops at the first one). */
  predicate BlockAt(s: string, p: nat, open: string, close: string) {
    IsAt(s, open, p) && IndexOfFrom(s, close, p + |open|).Some?
  }

  /** The leftmost position, from `from` on, at which the expression matches. */
  function FirstBlock(s: string, from: nat, open: string, close: string): Option<nat>
    decreases |s| + 1 - from
  {
    if from > |s| then None
    else if BlockAt(s, from, open, close) then Some(from)
    else FirstBlock(s, from + 1, open, close)
  }

  /** The search finds a block, and none before it; or it finds none because there is none. */
  lemma {:induction false} FirstBlockSpec(s: string, from: nat, open: string, close: string)
    ensures var r := FirstBlock(s, from, open, close);
      && (r.Some? ==> from <= r.value && BlockAt(s, r.value, open, close))
      && (r.Some? ==> forall k :: from <= k < r.value ==> !BlockAt(s, k, open, close))
      && (r.None? ==> forall k :: from <= k ==> !BlockAt(s, k, open, close))
    decreases |s| + 1 - from
  {
    if from <= |s| && !BlockAt(s, from, open, close) {
      FirstBlockSpec(s, from + 1, open, close);
    }
  }

  /** A block at `p` with no opening tag between `from` and `p` is the one found. */
  lemma {:induction false} FirstBlockAt(s: string, from: nat, p: nat, open: string, close: string)
    requires from <= p && BlockAt(s, p, open, close)
    requires forall k :: from <= k < p ==> !IsAt(s, open, k)
    ensures FirstBlock(s, from, open, close) == Some(p)
    decreases p - from
  {
    if from < p {
      FirstBlockAt(s, from + 1, p, open, close);
    }
  }

  /** Without an opening tag from `from` on, no block is found. */
  lemma {:induction false} NoBlockFrom(s: string, from: nat, open: string, close: string)
    requires forall j :: from <= j ==> !IsAt(s, open, j)
    ensures FirstBlock(s, from, open, close).None?
    decreases |s| + 1 - from
  {
    if from <= |s| {
      NoBlockFrom(s, from + 1, open, close);
    }
  }

  /** Where the first block starts, and where its closing tag ends. */
  function BlockSpan(s: string, open: string, close: string): (r: Option<(nat, nat)>)
    ensures r.Some? ==> r.value.0 <= r.value.1 <= |s|
  {
    match FirstBlock(s, 0, open, close)
    case None => None
    case Some(p) =>
      match IndexOfFrom(s, close, p + |open|)
      case None => None
      case Some(q) => Some((p, q + |close|))
  }

  /** `s.replace(/open.*?close/s, tag)`: the first block, from its opening tag through the
      first closing tag after it, is replaced. */
  function ReplaceBlock(s: string, tag: string, open: string, close: string): string {
    match BlockSpan(s, open, close)
    case None => s
    case Some(span) => ReplaceSpan(s, tag, span.0, span.1)
  }

  /** The old block replaced by `tag`, then `tag` inserted in front of the first `head`. */
  function Splice(html: string, tag: string, open: string, close: string, head: string): string {
    ReplaceFirst(ReplaceBlock(html, tag, open, close), head, tag + head)
  }

  /** The new `srcdoc` of the preview frame. */
  function FrameSplice(html: string, css: string): string {
    Splice(html, FrameTag(css), FrameOpen, StyleClose, HeadClose)
  }

  /** What the splice lemmas need of the three tags: each opens with its only `<`, none holds a
      `$`, `</head>` does not occur in the closing tag, and cannot start in the opening tag. */
  ghost predicate Markers(open: string, close: string, head: string) {
    && OpensOnce(open) && OpensOnce(close) && OpensOnce(head)
    && '$' !in open && '$' !in close && '$' !in head
    && (forall k :: 0 <= k ==> !IsAt(close, head, k))
    && |open| >= 2 && |head| >= 2 && open[1] != head[1]
  }

  lemma FrameMarkers()
    ensures Markers(FrameOpen, StyleClose, HeadClose)
  {
    forall k | 0 <= k ensures !IsAt(StyleClose, HeadClose, k) {
      if IsAt(StyleClose, HeadClose, k) {
        CharOfOccurrence(StyleClose, HeadClose, k, 2);
        assert false;
      }
    }
  }

  /** An occurrence inside the right part of a concatenation. */
  lemma IsAtShift(x: string, y: string, p: string, k: nat)
    requires |x| <= k && IsAt(x + y, p, k)
    ensures IsAt(y, p, k - |x|)
  {
    assert (x + y)[k..k + |p|] == y[k - |x|..k - |x| + |p|];
  }

  /** An occurrence inside the left part of a concatenation. */
  lemma IsAtPrefix(x: string, y: string, p: string, k: nat)
    requires k + |p| <= |x| && IsAt(x + y, p, k)
    ensures IsAt(x, p, k)
  {
    assert (x + y)[k..k + |p|] == x[k..k + |p|];
  }

  /** Without an opening tag there is no block to replace. */
  lemma NoBlock(h: string, tag: string, open: string, close: string)
    requires forall j :: 0 <= j ==> !IsAt(h, open, j)
    ensures ReplaceBlock(h, tag, open, close) == h
  {
    NoBlockFrom(h, 0, open, close);
  }

  /** `h.replace(head, tag + head)` puts the tag in front of the first `head`. */
  lemma InsertBeforeFirst(h: string, tag: string, head: string, k: nat)
    requires IndexOfFrom(h, head, 0) == Some(k) && '$' !in tag + head
    ensures ReplaceFirst(h, head, tag + head) == h[..k] + tag + h[k..]
  {
    assert ReplaceFirst(h, head, tag + head) == ReplaceSpan(h, tag + head, k, k + |head|);
    InsertAt(h, tag, head, k);
  }

  /** Replacing the `head` at `k` by `tag + head` inserts `tag` at `k`. */
  lemma InsertAt(h: string, tag: string, head: string, k: nat)
    requires IsAt(h, head, k) && '$' !in tag + head
    ensures ReplaceSpan(h, tag + head, k, k + |head|) == h[..k] + tag + h[k..]
  {
    ReplaceSpanPlain(h, tag + head, k, k + |head|);
    assert h[k..] == head + h[k + |head|..];
  }

  /** The first splice into a document without a block: the tag goes in front of the first
      `head`. */
  lemma SpliceFresh(h: string, tag: string, open: string, close: string, head: string, k: nat)
    requires forall j :: 0 <= j ==> !IsAt(h, open, j)
    requires IndexOfFrom(h, head, 0) == Some(k) && '$' !in tag + head
    ensures Splice(h, tag, open, close, head) == h[..k] + tag + h[k..]
  {
    NoBlock(h, tag, open, close);
    InsertBeforeFirst(h, tag, head, k);
  }

  /** `head` occurs neither in the opening tag followed by the sheet nor in the closing tag. */
  lemma NoHeadInTag(open: string, close: string, head: string, css: string)
    requires Markers(open, close, head) && IndexOfFrom(css, head, 0).None?
    ensures forall k :: 0 <= k ==> !IsAt(open + css, head, k)
  {
    forall k | 0 <= k ensures !IsAt(open + css, head, k) {
      if IsAt(open + css, head, k) {
        if k < |open| {
          CharOfOccurrence(open + css, head, k, 0);
          assert k == 0;
          CharOfOccurrence(open + css, head, k, 1);
          assert false;
        } else {
          IsAtShift(open, css, head, k);
          assert false;
        }
      }
    }
  }

  /** In `b + tag + head + a`, the first `head` is the one after the tag. */
  lemma HeadAfterTag(b: string, a: string, css: string, open: string, close: string, head: string)
    requires Markers(open, close, head)
    requires IndexOfFrom(b, head, 0).None? && IndexOfFrom(css, head, 0).None?
    ensures var tag := open + css + close;
      IndexOfFrom(b + tag + head + a, head, 0) == Some(|b| + |tag|)
  {
    NoHeadInTag(open, close, head, css);
    var tag := open + css + close;
    var y := close + (head + a);
    NoEarlyOccurrence(close, head + a, head, 0);
    var x := open + css;
    NoEarlyOccurrence(x, y, head, |close|);
    var t := x + y;
    NoEarlyOccurrence(b, t, head, |tag|);
    var s := b + tag + head + a;
    assert s == b + t;
    assert s[|b| + |tag|..|b| + |tag| + |head|] == head;
    FirstOccurrence(s, head, 0, |b| + |tag|);
  }

  /** An occurrence that starts in the sheet part of `left` and ends inside `left` lies in
      the sheet. */
  lemma OccurrenceInSheet(left: string, css: string, rest: string, close: string, from: nat, k: nat)
    requires from + |css| == |left| && left[from..] == css
    requires OpensOnce(close) && |close| <= |rest| && rest[..|close|] == close
    requires from <= k < |left| && IsAt(left + rest, close, k)
    ensures IsAt(css, close, k - from)
  {
    OccursInConcat(left, rest, close, k);
    SliceOfSuffix(left, from, k, k + |close|);
  }

  lemma SliceOfSuffix(x: string, from: nat, i: nat, j: nat)
    requires from <= i <= j <= |x|
    ensures x[i..j] == x[from..][i - from..j - from]
  {
  }

  /** In `left + rest`, where `left` ends with the sheet and `rest` starts with the closing
      tag, the first closing tag after the sheet's start is that one. */
  lemma CloseEndsTag(left: string, css: string, rest: string, close: string, from: nat)
    requires from + |css| == |left| && left[from..] == css
    requires OpensOnce(close) && |close| <= |rest| && rest[..|close|] == close
    requires IndexOfFrom(css, close, 0).None?
    ensures IndexOfFrom(left + rest, close, from) == Some(|left|)
  {
    var s := left + rest;
    var q := |left|;
    forall k | from <= k < q ensures !IsAt(s, close, k) {
      if IsAt(s, close, k) {
        OccurrenceInSheet(left, css, rest, close, from, k);
      }
    }
    SliceAfter(left, rest, |close|);
    FirstOccurrence(s, close, from, q);
  }

  lemma SliceAfter(x: string, y: string, n: nat)
    requires n <= |y|
    ensures (x + y)[|x|..|x| + n] == y[..n]
  {
  }

  /** In `b + tag + rest`, the first block is the tag itself. */
  lemma BlockIsTag(s: string, b: string, css: string, rest: string, open: string, close: string)
    requires s == b + (open + css + close) + rest
    requires OpensOnce(open) && OpensOnce(close)
    requires forall j :: 0 <= j ==> !IsAt(b, open, j)
    requires IndexOfFrom(css, close, 0).None?
    ensures FirstBlock(s, 0, open, close) == Some(|b|)
    ensures IndexOfFrom(s, close, |b| + |open|) == Some(|b| + |open| + |css|)
  {
    TagCloses(s, b, css, rest, open, close);
    var t := open + css + close + rest;
    assert s == b + t;
    assert t[..|open|] == open;
    NoEarlyOccurrence(b, t, open, 0);
    FirstBlockAt(s, 0, |b|, open, close);
  }

  lemma TagCloses(s: string, b: string, css: string, rest: string, open: string, close: string)
    requires s == b + (open + css + close) + rest
    requires OpensOnce(close)
    requires IndexOfFrom(css, close, 0).None?
    ensures IndexOfFrom(s, close, |b| + |open|) == Some(|b| + |open| + |css|)
  {
    var left := b + open + css;
    TagSplit(s, b, open, css, close, rest);
    assert |left| == |b| + |open| + |css|;
    CloseEndsTag(left, css, close + rest, close, |b| + |open|);
  }

  lemma TagSplit(s: string, b: string, open: string, css: string, close: string, rest: string)
    requires s == b + (open + css + close) + rest
    ensures s == (b + open + css) + (close + rest)
    ensures (b + open + css)[|b| + |open|..] == css
    ensures (close + rest)[..|close|] == close
  {
  }

  /** The span of the block that opens at `p` and whose closing tag is at `q`. */
  lemma BlockSpanAt(s: string, open: string, close: string, p: nat, q: nat)
    requires FirstBlock(s, 0, open, close) == Some(p)
    requires IndexOfFrom(s, close, p + |open|) == Some(q)
    ensures BlockSpan(s, open, close) == Some((p, q + |close|))
  {
  }

  /** The replacement once the span of the block is known. */
  lemma ReplaceBlockAt(s: string, tag: string, open: string, close: string, p: nat, e: nat)
    requires BlockSpan(s, open, close) == Some((p, e))
    ensures p <= e <= |s|
    ensures ReplaceBlock(s, tag, open, close) == ReplaceSpan(s, tag, p, e)
  {
  }

  /** A span replaced by a tag without `$` that equals it leaves the text as it was. */
  lemma ReplaceSpanSame(s: string, b: string, tag: string, rest: string)
    requires s == b + tag + rest && '$' !in tag
    ensures ReplaceSpan(s, tag, |b|, |b| + |tag|) == s
  {
    ReplaceSpanPlain(s, tag, |b|, |b| + |tag|);
    assert s[..|b|] == b && s[|b| + |tag|..] == rest;
  }

  /** The block the first splice inserted is replaced by the very same tag. */
  lemma SameBlockReplaced(s: string, b: string, css: string, rest: string, open: string, close: string)
    requires s == b + (open + css + close) + rest
    requires OpensOnce(open) && OpensOnce(close)
    requires forall j :: 0 <= j ==> !IsAt(b, open, j)
    requires IndexOfFrom(css, close, 0).None?
    requires '$' !in open + css + close
    ensures ReplaceBlock(s, open + css + close, open, close) == s
  {
    BlockIsTag(s, b, css, rest, open, close);
    ReplaceBlockSame(s, b, open + css + close, rest, open, close, |b| + |open| + |css|);
  }

  /** Replacing the first block by the tag that already spans it changes nothing. */
  lemma ReplaceBlockSame(s: string, b: string, tag: string, rest: string, open: string, close: string, q: nat)
    requires s == b + tag + rest && '$' !in tag
    requires FirstBlock(s, 0, open, close) == Some(|b|) && IndexOfFrom(s, close, |b| + |open|) == Some(q)
    requires q + |close| == |b| + |tag|
    ensures ReplaceBlock(s, tag, open, close) == s
  {
    BlockSpanAt(s, open, close, |b|, q);
    ReplaceBlockAt(s, tag, open, close, |b|, q + |close|);
    ReplaceSpanSame(s, b, tag, rest);
  }

  /** A second splice finds the block the first one inserted, replaces it by the same tag, and
      inserts one more tag in front of `head`. */
  lemma SpliceAgain(b: string, a: string, css: string, open: string, close: string, head: string)
    requires Markers(open, close, head)
    requires forall j :: 0 <= j ==> !IsAt(b, open, j)
    requires IndexOfFrom(b, head, 0).None?
    requires IndexOfFrom(css, close, 0).None? && IndexOfFrom(css, head, 0).None?
    requires '$' !in css
    ensures var tag := open + css + close;
      Splice(b + tag + head + a, tag, open, close, head) == b + tag + tag + head + a
  {
    var tag := open + css + close;
    var s := b + tag + head + a;
    SecondReplaceBlock(s, b, a, css, open, close, head);
    SecondInsert(s, b, a, css, open, close, head);
    SpliceOf(s, tag, open, close, head, b + tag + tag + head + a);
  }

  /** The first step of the second splice leaves the document as it is. */
  lemma SecondReplaceBlock(s: string, b: string, a: string, css: string, open: string, close: string, head: string)
    requires s == b + (open + css + close) + head + a
    requires OpensOnce(open) && OpensOnce(close) && '$' !in open && '$' !in close
    requires forall j :: 0 <= j ==> !IsAt(b, open, j)
    requires IndexOfFrom(css, close, 0).None? && '$' !in css
    ensures ReplaceBlock(s, open + css + close, open, close) == s
  {
    assert s == b + (open + css + close) + (head + a);
    SameBlockReplaced(s, b, css, head + a, open, close);
  }

  /** The second step of the second splice puts one more tag in front of `head`. */
  lemma SecondInsert(s: string, b: string, a: string, css: string, open: string, close: string, head: string)
    requires s == b + (open + css + close) + head + a
    requires Markers(open, close, head) && '$' !in css
    requires IndexOfFrom(b, head, 0).None? && IndexOfFrom(css, head, 0).None?
    ensures var tag := open + css + close;
      ReplaceFirst(s, head, tag + head) == b + tag + tag + head + a
  {
    var tag := open + css + close;
    HeadAfterTag(b, a, css, open, close, head);
    InsertBeforeFirst(s, tag, head, |b| + |tag|);
    SecondSpliceShape(s, b, tag, head, a);
  }

  /** The splice, once each of its two steps is known. */
  lemma SpliceOf(s: string, tag: string, open: string, close: string, head: string, r: string)
    requires ReplaceBlock(s, tag, open, close) == s && ReplaceFirst(s, head, tag + head) == r
    ensures Splice(s, tag, open, close, head) == r
  {
  }

  lemma SecondSpliceShape(s: string, b: string, tag: string, head: string, a: string)
    requires s == b + tag + head + a
    ensures s[..|b| + |tag|] + tag + s[|b| + |tag|..] == b + tag + tag + head + a
  {
    assert s[..|b| + |tag|] == b + tag;
    assert s[|b| + |tag|..] == head + a;
  }

  /** An occurrence in a prefix is one in the whole. */
  lemma IsAtInPrefix(h: string, k: nat, p: string, j: nat)
    requires k <= |h| && IsAt(h[..k], p, j)
    ensures IsAt(h, p, j) && j + |p| <= k
  {
    assert h[j..j + |p|] == h[..k][j..j + |p|];
  }

  /** The prefix before the first `head` holds neither an opening tag nor a `head`. */
  lemma BeforeFirst(h: string, open: string, head: string, k: nat)
    requires |head| > 0
    requires forall j :: 0 <= j ==> !IsAt(h, open, j)
    requires IndexOfFrom(h, head, 0) == Some(k)
    ensures forall j :: 0 <= j ==> !IsAt(h[..k], open, j)
    ensures IndexOfFrom(h[..k], head, 0).None?
  {
    forall j | 0 <= j ensures !IsAt(h[..k], open, j) && !IsAt(h[..k], head, j) {
      if IsAt(h[..k], open, j) {
        IsAtInPrefix(h, k, open, j);
      }
      if IsAt(h[..k], head, j) {
        IsAtInPrefix(h, k, head, j);
      }
    }
  }

  /** The splice is not idempotent: on a document with a `</head>` and no frame block, each
      call adds one more frame block in front of `</head>`. */
  lemma SpliceNotIdempotent(h: string, css: string, k: nat)
    requires forall j :: 0 <= j ==> !IsAt(h, FrameOpen, j)
    requires IndexOfFrom(h, HeadClose, 0) == Some(k)
    requires IndexOfFrom(css, StyleClose, 0).None? && IndexOfFrom(css, HeadClose, 0).None?
    requires '$' !in css
    ensures FrameSplice(h, css) == h[..k] + FrameTag(css) + h[k..]
    ensures FrameSplice(FrameSplice(h, css), css) == h[..k] + FrameTag(css) + FrameTag(css) + h[k..]
    ensures FrameSplice(FrameSplice(h, css), css) != FrameSplice(h, css)
  {
    FrameMarkers();
    SpliceIterated(h, css, k, FrameOpen, StyleClose, HeadClose);
  }

  lemma SpliceIterated(h: string, css: string, k: nat, open: string, close: string, head: string)
    requires Markers(open, close, head)
    requires forall j :: 0 <= j ==> !IsAt(h, open, j)
    requires IndexOfFrom(h, head, 0) == Some(k)
    requires IndexOfFrom(css, close, 0).None? && IndexOfFrom(css, head, 0).None?
    requires '$' !in css
    ensures var tag := open + css + close;
      Splice(h, tag, open, close, head) == h[..k] + tag + h[k..]
      && Splice(Splice(h, tag, open, close, head), tag, open, close, head) == h[..k] + tag + tag + h[k..]
  {
    var tag := open + css + close;
    assert '$' !in tag + head;
    SpliceFresh(h, tag, open, close, head, k);
    BeforeFirst(h, open, head, k);
    var b := h[..k];
    var a := h[k + |head|..];
    FirstSpliceShape(h, b, tag, head, a, k);
    SpliceAgain(b, a, css, open, close, head);
  }

  lemma FirstSpliceShape(h: string, b: string, tag: string, head: string, a: string, k: nat)
    requires IsAt(h, head, k) && b == h[..k] && a == h[k + |head|..]
    ensures b + tag + h[k..] == b + tag + head + a
    ensures b + tag + tag + h[k..] == b + tag + tag + head + a
  {
    assert h[k..] == head + a;
  }

  // ---------------------------------------------------------------------------------------
  // The page: `themesData`, the head's elements, the preview frame and the theme menu
  // ---------------------------------------------------------------------------------------

  /** An element of the page's head: its tag name, its `id` (empty when it has none) and its
      text content. */
  datatype HeadElement = HeadElement(tag: string, id: string, text: string)

  /** An option of the theme menu: its `value` and its text. */
  datatype MenuOption = MenuOption(value: string, text: string)

  const ThemeStyleId := "theme-style"
  const DefaultThemeKey := "default"

  /** `themesData[name]`: the entry under `name`, if the loaded data has one. */
  function Lookup(themes: seq<(string, ThemeEntry)>, name: string): (r: Option<ThemeEntry>)
    ensures r.None? <==> forall i :: 0 <= i < |themes| ==> themes[i].0 != name
    ensures r.Some? ==> exists i :: 0 <= i < |themes| && themes[i] == (name, r.value)
  {
    if themes == [] then None
    else if themes[0].0 == name then Some(themes[0].1)
    else
      var r := Lookup(themes[1..], name);
      assert r.Some? ==> exists i :: 0 <= i < |themes[1..]| && themes[1..][i] == (name, r.value);
      assert forall i :: 1 <= i < |themes| ==> themes[i] == themes[1..][i - 1];
      r
  }

  /** `getElementById(id)` among the head's elements: the first one with that id. */
  function FindById(els: seq<HeadElement>, id: string): (r: Option<nat>)
    ensures r.Some? ==> r.value < |els| && els[r.value].id == id
    ensures r.Some? ==> forall j :: 0 <= j < r.value ==> els[j].id != id
    ensures r.None? ==> forall j :: 0 <= j < |els| ==> els[j].id != id
  {
    if els == [] then None
    else if els[0].id == id then Some(0)
    else match FindById(els[1..], id)
      case None => None
      case Some(k) => Some(k + 1)
  }

  /** How many of the head's elements carry `id`. */
  function CountId(els: seq<HeadElement>, id: string): nat {
    if els == [] then 0 else (if els[0].id == id then 1 else 0) + CountId(els[1..], id)
  }

  /** The head after `applyTheme` has set the sheet: the text of the element with `id` is
      replaced, or a new style element with that id and text is appended. */
  function SetStyleText(els: seq<HeadElement>, id: string, css: string): seq<HeadElement> {
    match FindById(els, id)
    case Some(i) => els[i := els[i].(text := css)]
    case None => els + [HeadElement("style", id, css)]
  }

  /** After the update, the element found under `id` holds the sheet; no other element
      changes, and at most one is added. */
  lemma SetStyleTextSpec(els: seq<HeadElement>, id: string, css: string)
    ensures var r := SetStyleText(els, id, css);
      && FindById(r, id).Some? && r[FindById(r, id).value].text == css
      && |r| == |els| + (if FindById(els, id).None? then 1 else 0)
      && (forall j :: 0 <= j < |els| && Some(j) != FindById(els, id) ==> r[j] == els[j])
  {
    var r := SetStyleText(els, id, css);
    match FindById(els, id)
    case Some(i) =>
      assert forall j :: 0 <= j < i ==> r[j].id != id;
      FirstWithId(r, id, i);
    case None =>
      assert forall j :: 0 <= j < |els| ==> r[j].id != id;
      FirstWithId(r, id, |els|);
  }

  /** An element with `id` that no earlier element shares is the one found. */
  lemma {:induction false} FirstWithId(els: seq<HeadElement>, id: string, i: nat)
    requires i < |els| && els[i].id == id
    requires forall j :: 0 <= j < i ==> els[j].id != id
    ensures FindById(els, id) == Some(i)
  {
    if i > 0 {
      FirstWithId(els[1..], id, i - 1);
    }
  }

  /** Counting elements by id over a concatenation. */
  lemma {:induction false} CountIdAppend(a: seq<HeadElement>, b: seq<HeadElement>, id: string)
    ensures CountId(a + b, id) == CountId(a, id) + CountId(b, id)
  {
    if a == [] {
      assert a + b == b;
    } else {
      assert (a + b)[1..] == a[1..] + b;
      CountIdAppend(a[1..], b, id);
    }
  }

  /** Changing the text of an element keeps the number of elements with each id. */
  lemma {:induction false} CountIdRetext(els: seq<HeadElement>, i: nat, t: string, id: string)
    requires i < |els|
    ensures CountId(els[i := els[i].(text := t)], id) == CountId(els, id)
  {
    if i > 0 {
      assert els[i := els[i].(text := t)][1..] == els[1..][i - 1 := els[1..][i - 1].(text := t)];
      CountIdRetext(els[1..], i - 1, t, id);
    }
  }

  /** No element carries `id` when the search finds none. */
  lemma {:induction false} CountIdNone(els: seq<HeadElement>, id: string)
    requires FindById(els, id).None?
    ensures CountId(els, id) == 0
  {
    if els != [] {
      CountIdNone(els[1..], id);
    }
  }

  /** Applying themes never makes a second theme sheet: the head ends with as many elements
      with the id as before, and at least one. */
  lemma SetStyleTextCount(els: seq<HeadElement>, id: string, css: string)
    ensures CountId(SetStyleText(els, id, css), id)
            == if CountId(els, id) == 0 then 1 else CountId(els, id)
  {
    match FindById(els, id)
    case Some(i) =>
      CountIdRetext(els, i, css, id);
      CountIdFound(els, id, i);
    case None =>
      CountIdNone(els, id);
      CountIdAppend(els, [HeadElement("style", id, css)], id);
  }

  /** An element found under `id` counts. */
  lemma {:induction false} CountIdFound(els: seq<HeadElement>, id: string, i: nat)
    requires i < |els| && els[i].id == id
    ensures CountId(els, id) > 0
  {
    if i > 0 {
      CountIdFound(els[1..], id, i - 1);
    }
  }

  /** The last theme applied wins: setting the sheet twice is setting it to the second. */
  lemma SetStyleTextTwice(els: seq<HeadElement>, id: string, css1: string, css2: string)
    ensures SetStyleText(SetStyleText(els, id, css1), id, css2) == SetStyleText(els, id, css2)
  {
    var r := SetStyleText(els, id, css1);
    match FindById(els, id)
    case Some(i) =>
      assert forall j :: 0 <= j < i ==> r[j].id != id;
      FirstWithId(r, id, i);
    case None =>
      assert forall j :: 0 <= j < |els| ==> r[j].id != id;
      FirstWithId(r, id, |els|);
  }

  /** The text of a menu option: the theme's name (or its key) and its description. */
  function Label(key: string, theme: ThemeEntry): string {
    OrElse(theme.name, key) + " - " + OrElse(theme.description, "")
  }

  /** One option per loaded theme, in the data's order. */
  function MenuOptions(themes: seq<(string, ThemeEntry)>): (r: seq<MenuOption>)
    ensures |r| == |themes|
    ensures forall i :: 0 <= i < |r| ==> r[i] == MenuOption(themes[i].0, Label(themes[i].0, themes[i].1))
  {
    if themes == [] then []
    else MenuOptions(themes[..|themes| - 1])
         + [MenuOption(themes[|themes| - 1].0, Label(themes[|themes| - 1].0, themes[|themes| - 1].1))]
  }

  /** Every option's label starts with the theme's display name and its separator. */
  lemma LabelNamesTheme(key: string, theme: ThemeEntry)
    ensures var l := Label(key, theme);
      |OrElse(theme.name, key)| + 3 <= |l| && l[..|OrElse(theme.name, key)| + 3] == OrElse(theme.name, key) + " - "
      && (!Truthy(theme.name) ==> l[..|key|] == key)
  {
  }

  class ThemedPage {
    /** `window.themesData`, in the data's key order. */
    var themes: seq<(string, ThemeEntry)>
    /** The elements of `document.head`, in order. */
    var head: seq<HeadElement>
    /** The preview frame's `srcdoc`; None when the page has no preview frame. */
    var frame: Option<string>
    /** Whether the page has the theme menu, and its options. */
    var hasMenu: bool
    var options: seq<MenuOption>

    constructor (head0: seq<HeadElement>, frame0: Option<string>, hasMenu0: bool)
      ensures themes == [] && head == head0 && frame == frame0
      ensures hasMenu == hasMenu0 && options == []
    {
      themes := [];
      head := head0;
      frame := frame0;
      hasMenu := hasMenu0;
      options := [];
    }

    /** `applyTheme(name, themesData)`: an unknown name changes nothing; otherwise the theme's
        sheet becomes the text of the `theme-style` element, which is created in the head when
        missing, and a non-empty frame document gets the sheet spliced in. */
    method ApplyTheme(name: string)
      modifies this
      ensures themes == old(themes) && hasMenu == old(hasMenu) && options == old(options)
      ensures Lookup(themes, name).None? ==> head == old(head) && frame == old(frame)
      ensures Lookup(themes, name).Some? ==>
        var css := GenerateThemeCss(Lookup(themes, name));
        && head == SetStyleText(old(head), ThemeStyleId, css)
        && frame == (if old(frame).Some? && old(frame).value != "" then Some(FrameSplice(old(frame).value, css))
                     else old(frame))
    {
      var theme := Lookup(themes, name);
      if theme.None? {
        return;
      }
      var css := GenerateThemeCss(theme);
      head := SetStyleText(head, ThemeStyleId, css);
      if frame.Some? && frame.value != "" {
        frame := Some(FrameSplice(frame.value, css));
      }
    }

    /** `initThemeSystem()` once the data is loaded: the data is kept; with a theme menu, the
        menu gets one option per theme and the `default` theme is applied. */
    method InitThemeSystem(loaded: seq<(string, ThemeEntry)>)
      modifies this
      ensures themes == loaded && hasMenu == old(hasMenu)
      ensures !hasMenu ==> head == old(head) && frame == old(frame) && options == old(options)
      ensures hasMenu ==> options == MenuOptions(loaded)
      ensures hasMenu && Lookup(loaded, DefaultThemeKey).None? ==> head == old(head) && frame == old(frame)
      ensures hasMenu && Lookup(loaded, DefaultThemeKey).Some? ==>
        head == SetStyleText(old(head), ThemeStyleId, GenerateThemeCss(Lookup(loaded, DefaultThemeKey)))
      ensures hasMenu && Lookup(loaded, DefaultThemeKey).Some? ==>
        frame == (if old(frame).Some? && old(frame).value != ""
                  then Some(FrameSplice(old(frame).value, GenerateThemeCss(Lookup(loaded, DefaultThemeKey))))
                  else old(frame))
    {
      themes := loaded;
      if !hasMenu {
        return;
      }
      options := [];
      for i := 0 to |loaded|
        invariant themes == loaded && hasMenu && head == old(head) && frame == old(frame)
        invariant options == MenuOptions(loaded[..i])
      {
        assert loaded[..i + 1][..i] == loaded[..i];
        options := options + [MenuOption(loaded[i].0, Label(loaded[i].0, loaded[i].1))];
      }
      assert loaded[..|loaded|] == loaded;
      ApplyTheme(DefaultThemeKey);
    }
  }

}
