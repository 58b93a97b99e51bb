/**
  The preview's highlight button (public/app.js): its guards, the one-node classification of
  the selection, the unwrapping of an existing mark, the wrapping of the selection in a new
  `mark.user-highlight` by `surroundContents` or by the extract/append/insert fallback, and the
  refresh of the `currentHtml` snapshot; also the colour picker and the snapshot that export
  and save read.
*/
module Highlight {
  import opened Wrappers
  import opened JsStrings
  import opened Dom

  /** A selection's range: the path of its common ancestor container in the document and its
      two boundary points, written relative to that container. */
  datatype Range = Range(container: seq<nat>, start: seq<nat>, end: seq<nat>)

  /** The preview frame's document element. */
  predicate IsDocument(doc: Node) {
    doc.Element? && doc.name == "html"
  }

  predicate ValidRange(doc: Node, r: Range) {
    NodeAt(doc, r.container).Some? && RangeIn(NodeAt(doc, r.container).value, r.start, r.end)
  }

  function Container(doc: Node, r: Range): Node
    requires ValidRange(doc, r)
  {
    NodeAt(doc, r.container).value
  }

  /** `selection.isCollapsed`: both boundary points are the same. */
  predicate Collapsed(r: Range) {
    r.start == r.end
  }

  /** `range.toString()`: the characters of the container's text between the two points. */
  function SelectedText(doc: Node, r: Range): (t: string)
    requires ValidRange(doc, r)
    ensures |t| <= |TextOf(Container(doc, r))|
    ensures Collapsed(r) ==> t == []
  {
    var c := Container(doc, r);
    RangeOrdered(c, r.start, r.end);
    TextOf(c)[Off(c, r.start)..Off(c, r.end)]
  }

  // ---------------------------------------------------------------------------------------
  // Classification
  // ---------------------------------------------------------------------------------------

  /** A Text container is never the document element, so it has a parent. */
  lemma TextContainerHasParent(doc: Node, r: Range)
    requires IsDocument(doc) && ValidRange(doc, r) && Container(doc, r).Text?
    ensures r.container != []
    ensures NodeAt(doc, r.container[..|r.container| - 1]).Some?
    ensures NodeAt(doc, r.container[..|r.container| - 1]).value.Element?
    ensures r.container[|r.container| - 1] < |NodeAt(doc, r.container[..|r.container| - 1]).value.children|
  {
    NodeAtParent(doc, r.container);
  }

  /** The single node the handler inspects: the container's parent element when the container
      is a Text node, the container itself otherwise. No further ancestor is looked at. */
  function InspectedPath(doc: Node, r: Range): (p: seq<nat>)
    requires IsDocument(doc) && ValidRange(doc, r)
    ensures NodeAt(doc, p).Some? && NodeAt(doc, p).value.Element?
    ensures IsPrefix(p, r.container) && |r.container| <= |p| + 1
  {
    if Container(doc, r).Text? then
      TextContainerHasParent(doc, r);
      r.container[..|r.container| - 1]
    else r.container
  }

  predicate IsMark(n: Node) {
    n.Element? && n.name == "mark"
  }

  datatype Action = Add | Remove

  /** `parentMark.tagName === 'MARK'` decides between removing and adding. */
  function Classify(doc: Node, r: Range): Action
    requires IsDocument(doc) && ValidRange(doc, r)
  {
    if IsMark(NodeAt(doc, InspectedPath(doc, r)).value) then Remove else Add
  }

  // ---------------------------------------------------------------------------------------
  // Removing a highlight
  // ---------------------------------------------------------------------------------------

  /** The document after the element at `mp` hands its children, in order, to its parent in
      its own place and is removed. */
  function Unwrapped(doc: Node, mp: seq<nat>): Node
    requires mp != [] && NodeAt(doc, mp).Some? && NodeAt(doc, mp).value.Element?
  {
    NodeAtParent(doc, mp);
    var pp := mp[..|mp| - 1];
    var parent := NodeAt(doc, pp).value;
    ReplaceAt(doc, pp, parent.(children := Unwrap(parent.children, mp[|mp| - 1])))
  }

  /** Unwrapping changes only the parent's child list: the mark's children take its place in
      order, the other children stay. */
  lemma UnwrapShape(doc: Node, mp: seq<nat>)
    requires mp != [] && NodeAt(doc, mp).Some? && NodeAt(doc, mp).value.Element?
    ensures NodeAt(doc, mp[..|mp| - 1]).Some? && NodeAt(doc, mp[..|mp| - 1]).value.Element?
    ensures mp[|mp| - 1] < |NodeAt(doc, mp[..|mp| - 1]).value.children|
    ensures NodeAt(Unwrapped(doc, mp), mp[..|mp| - 1]).Some?
    ensures NodeAt(Unwrapped(doc, mp), mp[..|mp| - 1]).value.children
            == NodeAt(doc, mp[..|mp| - 1]).value.children[..mp[|mp| - 1]]
               + NodeAt(doc, mp).value.children
               + NodeAt(doc, mp[..|mp| - 1]).value.children[mp[|mp| - 1] + 1..]
    ensures forall q :: !IsPrefix(mp[..|mp| - 1], q) && !IsPrefix(q, mp[..|mp| - 1]) ==>
              NodeAt(Unwrapped(doc, mp), q) == NodeAt(doc, q)
  {
    NodeAtParent(doc, mp);
    var pp := mp[..|mp| - 1];
    var parent := NodeAt(doc, pp).value;
    forall q | !IsPrefix(pp, q) && !IsPrefix(q, pp) ensures NodeAt(Unwrapped(doc, mp), q) == NodeAt(doc, q) {
      ReplaceAtFrame(doc, pp, parent.(children := Unwrap(parent.children, mp[|mp| - 1])), q);
    }
  }

  /** Unwrapping keeps the document's text. */
  lemma UnwrapKeepsDocText(doc: Node, mp: seq<nat>)
    requires mp != [] && NodeAt(doc, mp).Some? && NodeAt(doc, mp).value.Element?
    ensures TextOf(Unwrapped(doc, mp)) == TextOf(doc)
  {
    NodeAtParent(doc, mp);
    var pp := mp[..|mp| - 1];
    var parent := NodeAt(doc, pp).value;
    UnwrapKeepsText(parent.children, mp[|mp| - 1]);
    ReplaceAtKeepsText(doc, pp, parent.(children := Unwrap(parent.children, mp[|mp| - 1])));
  }

  // ---------------------------------------------------------------------------------------
  // Adding a highlight
  // ---------------------------------------------------------------------------------------

  /** The inline style the handler gives a new mark, declaration by declaration. */
  function MarkStyle(color: string): string {
    StyleText(["background: " + color, "padding: 2px 6px", "border-radius: 3px",
               "box-shadow: 0 1px 2px rgba(0,0,0,0.05)"])
  }

  /** Declarations separated by `; `, the last one closed by `;`. */
  function StyleText(ds: seq<string>): string {
    if ds == [] then []
    else if |ds| == 1 then ds[0] + ";"
    else ds[0] + "; " + StyleText(ds[1..])
  }

  /** A `mark` with class `user-highlight`, the chosen background and the given children. */
  function Mark(color: string, children: seq<Node>): Node {
    Element("mark", [Attr("class", "user-highlight"), Attr("style", MarkStyle(color))], children)
  }

  /** The path of the node the new mark is inserted into. */
  function WrapParent(doc: Node, r: Range): seq<nat>
    requires IsDocument(doc) && ValidRange(doc, r)
  {
    InspectedPath(doc, r)
  }

  /** The index the new mark gets in that node: right after the kept head of a split Text
      container, or between the kept children of an element container. */
  function WrapIndex(doc: Node, r: Range): nat
    requires IsDocument(doc) && ValidRange(doc, r)
  {
    var c := Container(doc, r);
    if c.Text? then r.container[|r.container| - 1] + 1 else |Extract(c, r.start, r.end).before|
  }

  /** The new child list of the node the mark goes into. */
  function WrappedChildren(doc: Node, r: Range, color: string): seq<Node>
    requires IsDocument(doc) && ValidRange(doc, r)
  {
    var c := Container(doc, r);
    if c.Text? then
      TextContainerHasParent(doc, r);
      var ch := NodeAt(doc, WrapParent(doc, r)).value.children;
      var i := r.container[|r.container| - 1];
      var a, b := r.start[0], r.end[0];
      ch[..i] + [Text(c.data[..a]), Mark(color, [Text(c.data[a..b])]), Text(c.data[b..])] + ch[i + 1..]
    else
      var e := Extract(c, r.start, r.end);
      e.before + [Mark(color, e.fragment)] + e.after
  }

  /** The document once the selection is wrapped in a new mark. Both the `surroundContents`
      path and the extract/append/insert fallback produce it. */
  function Wrapped(doc: Node, r: Range, color: string): Node
    requires IsDocument(doc) && ValidRange(doc, r)
  {
    var pp := WrapParent(doc, r);
    ReplaceAt(doc, pp, NodeAt(doc, pp).value.(children := WrappedChildren(doc, r, color)))
  }

  /** The new mark sits at `WrapParent + [WrapIndex]` and holds exactly the selected text. */
  lemma WrapMarkHoldsSelection(doc: Node, r: Range, color: string)
    requires IsDocument(doc) && ValidRange(doc, r)
    ensures NodeAt(Wrapped(doc, r, color), WrapParent(doc, r) + [WrapIndex(doc, r)]).Some?
    ensures var m := NodeAt(Wrapped(doc, r, color), WrapParent(doc, r) + [WrapIndex(doc, r)]).value;
      IsMark(m) && m.attrs == Mark(color, []).attrs && TextOf(m) == SelectedText(doc, r)
  {
    var pp := WrapParent(doc, r);
    var ch := WrappedChildren(doc, r, color);
    var k := WrapIndex(doc, r);
    WrappedChildMark(doc, r, color);
    ReplaceAtBelow(doc, pp, NodeAt(doc, pp).value.(children := ch), [k]);
  }

  /** In the new child list, the child at `WrapIndex` is the mark holding the selected text. */
  lemma WrappedChildMark(doc: Node, r: Range, color: string)
    requires IsDocument(doc) && ValidRange(doc, r)
    ensures var ch, k := WrappedChildren(doc, r, color), WrapIndex(doc, r);
      k < |ch| && IsMark(ch[k]) && ch[k].attrs == Mark(color, []).attrs
      && TextOf(ch[k]) == SelectedText(doc, r)
  {
    if Container(doc, r).Text? {
      WrappedTextChildMark(doc, r, color);
      TextsOfSingle(Text(SelectedText(doc, r)));
    } else {
      var c := Container(doc, r);
      var e := Extract(c, r.start, r.end);
      assert WrappedChildren(doc, r, color)[WrapIndex(doc, r)] == Mark(color, e.fragment);
    }
  }

  lemma WrappedTextChildMark(doc: Node, r: Range, color: string)
    requires IsDocument(doc) && ValidRange(doc, r) && Container(doc, r).Text?
    ensures var ch, k := WrappedChildren(doc, r, color), WrapIndex(doc, r);
      k < |ch| && ch[k] == Mark(color, [Text(SelectedText(doc, r))])
  {
    var c := Container(doc, r);
    var ch := WrappedChildren(doc, r, color);
    TextContainerHasParent(doc, r);
    var i := r.container[|r.container| - 1];
    assert |NodeAt(doc, WrapParent(doc, r)).value.children[..i]| == i;
    assert ch[i + 1] == Mark(color, [Text(c.data[r.start[0]..r.end[0]])]);
  }

  /** The new child list holds the same text as the old one. */
  lemma WrappedChildrenKeepText(doc: Node, r: Range, color: string)
    requires IsDocument(doc) && ValidRange(doc, r)
    ensures TextsOf(WrappedChildren(doc, r, color)) == TextsOf(NodeAt(doc, WrapParent(doc, r)).value.children)
  {
    if Container(doc, r).Text? {
      WrappedTextChildrenKeepText(doc, r, color);
    } else {
      var c := Container(doc, r);
      var e := Extract(c, r.start, r.end);
      RangeOrdered(c, r.start, r.end);
      ExtractionKeepsText(TextOf(c), Off(c, r.start), Off(c, r.end), e, Mark(color, e.fragment));
    }
  }

  lemma WrappedTextChildrenKeepText(doc: Node, r: Range, color: string)
    requires IsDocument(doc) && ValidRange(doc, r) && Container(doc, r).Text?
    ensures TextsOf(WrappedChildren(doc, r, color)) == TextsOf(NodeAt(doc, WrapParent(doc, r)).value.children)
  {
    var c := Container(doc, r);
    TextContainerHasParent(doc, r);
    NodeAtParent(doc, r.container);
    var ch := NodeAt(doc, WrapParent(doc, r)).value.children;
    var i := r.container[|r.container| - 1];
    var a, b := r.start[0], r.end[0];
    assert ch[i] == Text(c.data) && a <= b <= |c.data|;
    TextsOfSingle(Text(c.data[a..b]));
    SplitTextKeepsText(ch, i, c.data, a, b, Mark(color, [Text(c.data[a..b])]));
  }

  /** Child `i`, a Text node with data `d`, replaced by the head of `d`, a node holding the
      middle and the tail: the list's text is unchanged. */
  lemma SplitTextKeepsText(ch: seq<Node>, i: nat, d: string, a: nat, b: nat, m: Node)
    requires i < |ch| && ch[i] == Text(d) && a <= b <= |d| && TextOf(m) == d[a..b]
    ensures TextsOf(ch[..i] + [Text(d[..a]), m, Text(d[b..])] + ch[i + 1..]) == TextsOf(ch)
  {
    var mid := [Text(d[..a]), m, Text(d[b..])];
    TextsOfThree(Text(d[..a]), m, Text(d[b..]));
    ThreeSlices(d, a, b);
    assert TextsOf(mid) == d;
    TextsOfAppend(ch[..i], mid);
    TextsOfAppend(ch[..i] + mid, ch[i + 1..]);
    TextsOfAround(ch, i);
  }

  /** A string is its head, its middle and its tail. */
  lemma ThreeSlices(d: string, a: nat, b: nat)
    requires a <= b <= |d|
    ensures d[..a] + d[a..b] + d[b..] == d
  {
  }

  /** The kept children around a node holding the fragment carry the container's text. */
  lemma ExtractionKeepsText(t: string, x: nat, y: nat, e: Extraction, m: Node)
    requires x <= y <= |t|
    requires TextsOf(e.before) == t[..x] && TextOf(m) == t[x..y] && TextsOf(e.after) == t[y..]
    ensures TextsOf(e.before + [m] + e.after) == t
  {
    TextsOfSingle(m);
    TextsOfAppend(e.before, [m]);
    TextsOfAppend(e.before + [m], e.after);
    assert t == t[..x] + t[x..y] + t[y..];
  }

  /** Wrapping keeps the document's text: the mark's text is taken from where it stands. */
  lemma WrapKeepsDocText(doc: Node, r: Range, color: string)
    requires IsDocument(doc) && ValidRange(doc, r)
    ensures TextOf(Wrapped(doc, r, color)) == TextOf(doc)
  {
    var pp := WrapParent(doc, r);
    WrappedChildrenKeepText(doc, r, color);
    ReplaceAtKeepsText(doc, pp, NodeAt(doc, pp).value.(children := WrappedChildren(doc, r, color)));
  }

  /** Wrapping touches nothing outside the node the mark goes into and its ancestors. */
  lemma WrapFrame(doc: Node, r: Range, color: string, q: seq<nat>)
    requires IsDocument(doc) && ValidRange(doc, r)
    requires !IsPrefix(WrapParent(doc, r), q) && !IsPrefix(q, WrapParent(doc, r))
    ensures NodeAt(Wrapped(doc, r, color), q) == NodeAt(doc, q)
  {
    var pp := WrapParent(doc, r);
    ReplaceAtFrame(doc, pp, NodeAt(doc, pp).value.(children := WrappedChildren(doc, r, color)), q);
  }

  /** For a Text container, the parent's other children stay the same nodes: the container
      gives way to its head, the mark and its tail, and nothing else moves. */
  lemma WrapKeepsSiblingsText(doc: Node, r: Range, color: string)
    requires IsDocument(doc) && ValidRange(doc, r) && Container(doc, r).Text?
    ensures r.container != [] && WrapParent(doc, r) == r.container[..|r.container| - 1]
    ensures NodeAt(Wrapped(doc, r, color), WrapParent(doc, r)).Some?
    ensures var pp, i := WrapParent(doc, r), r.container[|r.container| - 1];
      var ch, w := NodeAt(doc, pp).value.children, NodeAt(Wrapped(doc, r, color), pp).value.children;
      i < |ch| && |w| == |ch| + 2 && w[..i] == ch[..i] && w[i + 3..] == ch[i + 1..]
  {
    TextContainerHasParent(doc, r);
    WrappedChildrenOfText(doc, r, color);
    var pp, c := WrapParent(doc, r), Container(doc, r);
    var ch, i := NodeAt(doc, pp).value.children, r.container[|r.container| - 1];
    var mid := [Text(c.data[..r.start[0]]), Mark(color, [Text(c.data[r.start[0]..r.end[0]])]),
                Text(c.data[r.end[0]..])];
    var w := WrappedChildren(doc, r, color);
    assert w == ch[..i] + mid + ch[i + 1..];
    assert NodeAt(Wrapped(doc, r, color), pp) == Some(NodeAt(doc, pp).value.(children := w));
    assert w[..i] == ch[..i];
    assert w[i + 3..] == ch[i + 1..];
  }

  /** For an element container, the children before the start child and those after the end
      child stay the same nodes, at the two ends of the new child list. */
  lemma WrapKeepsSiblingsElement(doc: Node, r: Range, color: string)
    requires IsDocument(doc) && ValidRange(doc, r) && Container(doc, r).Element?
    ensures WrapParent(doc, r) == r.container
    ensures NodeAt(Wrapped(doc, r, color), r.container).Some?
    ensures var ch, w := Container(doc, r).children, NodeAt(Wrapped(doc, r, color), r.container).value.children;
      r.start[0] <= |w| && w[..r.start[0]] == ch[..r.start[0]]
    ensures var ch, w := Container(doc, r).children, NodeAt(Wrapped(doc, r, color), r.container).value.children;
      var k := |ch| - r.end[0] - 1;
      r.end[0] < |ch| ==> k <= |w| && w[|w| - k..] == ch[r.end[0] + 1..]
  {
    var c := Container(doc, r);
    var e := Extract(c, r.start, r.end);
    assert NodeAt(Wrapped(doc, r, color), r.container)
        == Some(c.(children := e.before + [Mark(color, e.fragment)] + e.after));
    KeptEnds(c.children, e.before, Mark(color, e.fragment), e.after, r.start[0], r.end[0]);
  }

  /** A child list rebuilt as `before + [m] + after` keeps the ends that `before` and `after` kept. */
  lemma KeptEnds(ch: seq<Node>, before: seq<Node>, m: Node, after: seq<Node>, s: nat, e: nat)
    requires s <= |before| && s <= |ch| && before[..s] == ch[..s]
    requires e < |ch| ==> |ch| - e - 1 <= |after| && after[|after| - (|ch| - e - 1)..] == ch[e + 1..]
    ensures var w := before + [m] + after;
      s <= |w| && w[..s] == ch[..s]
      && (e < |ch| ==> |ch| - e - 1 <= |w| && w[|w| - (|ch| - e - 1)..] == ch[e + 1..])
  {
    var w := before + [m] + after;
    assert w[..s] == before[..s];
    if e < |ch| {
      var k := |ch| - e - 1;
      assert w[|w| - k..] == after[|after| - k..];
    }
  }

  /** The toggle law for a selection inside one Text node: wrapping it and then unwrapping the
      new mark gives back the same markup, although the tree now holds that text in three
      adjacent Text nodes where it had one. */
  lemma ToggleRestoresMarkup(doc: Node, r: Range, color: string)
    requires IsDocument(doc) && ValidRange(doc, r) && Container(doc, r).Text?
    ensures var mp := WrapParent(doc, r) + [WrapIndex(doc, r)];
      NodeAt(Wrapped(doc, r, color), mp).Some? && NodeAt(Wrapped(doc, r, color), mp).value.Element?
      && OuterHtml(Unwrapped(Wrapped(doc, r, color), mp)) == OuterHtml(doc)
      && Unwrapped(Wrapped(doc, r, color), mp) != doc
  {
    WrapMarkHoldsSelection(doc, r, color);
    UnwrapWrappedText(doc, r, color);
    TextContainerHasParent(doc, r);
    var pp := WrapParent(doc, r);
    var parent := NodeAt(doc, pp).value;
    var i := r.container[|r.container| - 1];
    NodeAtParent(doc, r.container);
    assert parent.children[i] == Container(doc, r);
    SplitChildSameMarkup(parent, i, r.start[0], r.end[0]);
    ReplaceAtKeepsMarkup(doc, pp, parent.(children := SplitContainer(doc, r)));
    ReplaceAtBelow(doc, pp, parent.(children := SplitContainer(doc, r)), []);
  }

  /** The parent's child list with the Text container split at the range's two offsets. */
  function SplitContainer(doc: Node, r: Range): (ch: seq<Node>)
    requires IsDocument(doc) && ValidRange(doc, r) && Container(doc, r).Text?
    ensures |ch| == |NodeAt(doc, WrapParent(doc, r)).value.children| + 2
  {
    TextContainerHasParent(doc, r);
    var ch := NodeAt(doc, WrapParent(doc, r)).value.children;
    var i := r.container[|r.container| - 1];
    var d, a, b := Container(doc, r).data, r.start[0], r.end[0];
    ch[..i] + [Text(d[..a]), Text(d[a..b]), Text(d[b..])] + ch[i + 1..]
  }

  /** Unwrapping the new mark leaves the parent with its Text container split in three. */
  lemma UnwrapWrappedText(doc: Node, r: Range, color: string)
    requires IsDocument(doc) && ValidRange(doc, r) && Container(doc, r).Text?
    ensures var mp := WrapParent(doc, r) + [WrapIndex(doc, r)];
      NodeAt(Wrapped(doc, r, color), mp).Some? && NodeAt(Wrapped(doc, r, color), mp).value.Element?
      && Unwrapped(Wrapped(doc, r, color), mp)
      == ReplaceAt(doc, WrapParent(doc, r), NodeAt(doc, WrapParent(doc, r)).value.(children := SplitContainer(doc, r)))
  {
    WrappedTextMark(doc, r, color);
    WrappedChildrenOfText(doc, r, color);
    TextContainerHasParent(doc, r);
    var pp := WrapParent(doc, r);
    var i := r.container[|r.container| - 1];
    assert WrapIndex(doc, r) == i + 1;
    var mp := pp + [i + 1];
    var parent := NodeAt(doc, pp).value;
    var wch := WrappedChildren(doc, r, color);
    assert mp[..|mp| - 1] == pp;
    ReplaceAtBelow(doc, pp, parent.(children := wch), []);
    assert pp + [] == pp;
    UnwrapSplitMark(parent.children, i, Container(doc, r).data, r.start[0], r.end[0], color);
    ReplaceAtTwice(doc, pp, parent.(children := wch), parent.(children := SplitContainer(doc, r)));
  }

  /** Unwrapping a mark that holds the middle of a split Text node leaves the three pieces. */
  lemma UnwrapSplitMark(ch: seq<Node>, i: nat, d: string, a: nat, b: nat, color: string)
    requires i < |ch| && a <= b <= |d|
    ensures var wch := ch[..i] + [Text(d[..a]), Mark(color, [Text(d[a..b])]), Text(d[b..])] + ch[i + 1..];
      i + 1 < |wch| && wch[i + 1].Element?
      && Unwrap(wch, i + 1) == ch[..i] + [Text(d[..a]), Text(d[a..b]), Text(d[b..])] + ch[i + 1..]
  {
    var wch := ch[..i] + [Text(d[..a]), Mark(color, [Text(d[a..b])]), Text(d[b..])] + ch[i + 1..];
    assert wch[..i + 1] == ch[..i] + [Text(d[..a])];
    assert wch[i + 1] == Mark(color, [Text(d[a..b])]);
    assert wch[i + 2..] == [Text(d[b..])] + ch[i + 1..];
  }

  // ---------------------------------------------------------------------------------------
  // The DOM operations the handler calls, one by one
  // ---------------------------------------------------------------------------------------

  /** A boundary point given by the path of its node and the offset in it. */
  datatype Boundary = Boundary(node: seq<nat>, offset: nat)

  /** The document after `range.extractContents()`. */
  function ExtractedDoc(doc: Node, r: Range): Node
    requires IsDocument(doc) && ValidRange(doc, r)
  {
    var c := Container(doc, r);
    if c.Text? then ReplaceAt(doc, r.container, Text(c.data[..r.start[0]] + c.data[r.end[0]..]))
    else
      var e := Extract(c, r.start, r.end);
      ReplaceAt(doc, r.container, c.(children := e.before + e.after))
  }

  /** The fragment `range.extractContents()` returns. */
  function Fragment(doc: Node, r: Range): seq<Node>
    requires IsDocument(doc) && ValidRange(doc, r)
  {
    var c := Container(doc, r);
    if c.Text? then [Text(c.data[r.start[0]..r.end[0]])] else Extract(c, r.start, r.end).fragment
  }

  /** Where the range collapses once its contents are extracted. */
  function ExtractionPoint(doc: Node, r: Range): Boundary
    requires IsDocument(doc) && ValidRange(doc, r)
  {
    var c := Container(doc, r);
    if c.Text? then Boundary(r.container, r.start[0]) else Boundary(r.container, |Extract(c, r.start, r.end).before|)
  }

  predicate CanInsert(doc: Node, at: Boundary) {
    NodeAt(doc, at.node).Some? &&
    match NodeAt(doc, at.node).value
    case Text(d) => at.node != [] && at.offset <= |d|
    case Element(_, _, ch) => at.offset <= |ch|
  }

  /** The document after `range.insertNode(node)` on a range collapsed at `at`: a Text node is
      split at the offset and `node` goes between the halves; in an element it becomes the
      child at the offset. */
  function InsertedDoc(doc: Node, at: Boundary, node: Node): Node
    requires CanInsert(doc, at)
  {
    match NodeAt(doc, at.node).value
    case Text(d) =>
      NodeAtParent(doc, at.node);
      var pp, i := at.node[..|at.node| - 1], at.node[|at.node| - 1];
      var p := NodeAt(doc, pp).value;
      ReplaceAt(doc, pp, p.(children := p.children[..i] + [Text(d[..at.offset]), node, Text(d[at.offset..])] + p.children[i + 1..]))
    case Element(_, _, ch) =>
      ReplaceAt(doc, at.node, NodeAt(doc, at.node).value.(children := ch[..at.offset] + [node] + ch[at.offset..]))
  }

  /** Where `insertNode` puts the node. */
  function InsertedPath(doc: Node, at: Boundary): seq<nat>
    requires CanInsert(doc, at)
  {
    if NodeAt(doc, at.node).value.Text? then at.node[..|at.node| - 1] + [at.node[|at.node| - 1] + 1]
    else at.node + [at.offset]
  }

  /** Extraction keeps the document an `html` tree and leaves a point `insertNode` can use. */
  lemma ExtractionLeavesInsertPoint(doc: Node, r: Range)
    requires IsDocument(doc) && ValidRange(doc, r)
    ensures IsDocument(ExtractedDoc(doc, r))
    ensures CanInsert(ExtractedDoc(doc, r), ExtractionPoint(doc, r))
    ensures NodeAt(ExtractedDoc(doc, r), r.container).value.Text? == Container(doc, r).Text?
  {
    var c := Container(doc, r);
    if c.Text? {
      TextContainerHasParent(doc, r);
    }
  }

  /** In a Text container, extracting and then inserting `node` at the collapsed point leaves
      the container's parent with the kept head, `node` and the kept tail in the container's
      place. */
  lemma ExtractInsertText(doc: Node, r: Range, node: Node)
    requires IsDocument(doc) && ValidRange(doc, r) && Container(doc, r).Text?
    ensures CanInsert(ExtractedDoc(doc, r), ExtractionPoint(doc, r))
    ensures var c, pp, i := Container(doc, r), WrapParent(doc, r), r.container[|r.container| - 1];
      var ch := NodeAt(doc, pp).value.children;
      i < |ch| &&
      InsertedPath(ExtractedDoc(doc, r), ExtractionPoint(doc, r)) == pp + [i + 1] &&
      InsertedDoc(ExtractedDoc(doc, r), ExtractionPoint(doc, r), node)
      == ReplaceAt(doc, pp, NodeAt(doc, pp).value.(children :=
           ch[..i] + [Text(c.data[..r.start[0]]), node, Text(c.data[r.end[0]..])] + ch[i + 1..]))
  {
    ExtractionLeavesInsertPoint(doc, r);
    var c := Container(doc, r);
    TextContainerHasParent(doc, r);
    NodeAtParent(doc, r.container);
    var pp, i := r.container[..|r.container| - 1], r.container[|r.container| - 1];
    var p := NodeAt(doc, pp).value;
    var d, a, b := c.data, r.start[0], r.end[0];
    var d2 := d[..a] + d[b..];
    assert r.container == pp + [i];
    ReplaceAtChildView(doc, pp, i, Text(d2));
    var p1 := p.(children := p.children[i := Text(d2)]);
    assert p1.children[..i] == p.children[..i] && p1.children[i + 1..] == p.children[i + 1..];
    assert d2[..a] == d[..a] && d2[a..] == d[b..];
    var y := p1.(children := p1.children[..i] + [Text(d2[..a]), node, Text(d2[a..])] + p1.children[i + 1..]);
    ReplaceAtInside(doc, pp, [i], Text(d2), y);
  }

  /** In an element container, extracting and then inserting `node` at the collapsed point puts
      `node` between the kept children. */
  lemma ExtractInsertElement(doc: Node, r: Range, node: Node)
    requires IsDocument(doc) && ValidRange(doc, r) && Container(doc, r).Element?
    ensures CanInsert(ExtractedDoc(doc, r), ExtractionPoint(doc, r))
    ensures var c := Container(doc, r);
      var e := Extract(c, r.start, r.end);
      InsertedPath(ExtractedDoc(doc, r), ExtractionPoint(doc, r)) == r.container + [|e.before|] &&
      InsertedDoc(ExtractedDoc(doc, r), ExtractionPoint(doc, r), node)
      == ReplaceAt(doc, r.container, c.(children := e.before + [node] + e.after))
  {
    ExtractionLeavesInsertPoint(doc, r);
    var c := Container(doc, r);
    var e := Extract(c, r.start, r.end);
    var c1 := c.(children := e.before + e.after);
    assert (e.before + e.after)[..|e.before|] == e.before && (e.before + e.after)[|e.before|..] == e.after;
    ReplaceAtTwice(doc, r.container, c1, c.(children := e.before + [node] + e.after));
  }

  /** The fallback: extract, put the fragment into the new mark, insert the mark. */
  lemma ExtractAppendInsertWraps(doc: Node, r: Range, color: string)
    requires IsDocument(doc) && ValidRange(doc, r)
    ensures CanInsert(ExtractedDoc(doc, r), ExtractionPoint(doc, r))
    ensures InsertedDoc(ExtractedDoc(doc, r), ExtractionPoint(doc, r), Mark(color, Fragment(doc, r)))
            == Wrapped(doc, r, color)
  {
    ExtractionLeavesInsertPoint(doc, r);
    if Container(doc, r).Text? {
      ExtractInsertText(doc, r, Mark(color, Fragment(doc, r)));
    } else {
      ExtractInsertElement(doc, r, Mark(color, Fragment(doc, r)));
    }
  }

  /** `surroundContents`: extract, insert the still empty mark, then append the fragment to it.
      It produces the same document as the fallback. */
  lemma SurroundWraps(doc: Node, r: Range, color: string)
    requires IsDocument(doc) && ValidRange(doc, r)
    ensures CanInsert(ExtractedDoc(doc, r), ExtractionPoint(doc, r))
    ensures var y := InsertedDoc(ExtractedDoc(doc, r), ExtractionPoint(doc, r), Mark(color, []));
      var mp := InsertedPath(ExtractedDoc(doc, r), ExtractionPoint(doc, r));
      NodeAt(y, mp) == Some(Mark(color, []))
      && ReplaceAt(y, mp, Mark(color, Fragment(doc, r))) == Wrapped(doc, r, color)
  {
    ExtractionLeavesInsertPoint(doc, r);
    if Container(doc, r).Text? {
      SurroundWrapsText(doc, r, color);
    } else {
      SurroundWrapsElement(doc, r, color);
    }
  }

  lemma SurroundWrapsText(doc: Node, r: Range, color: string)
    requires IsDocument(doc) && ValidRange(doc, r) && Container(doc, r).Text?
    ensures CanInsert(ExtractedDoc(doc, r), ExtractionPoint(doc, r))
    ensures var y := InsertedDoc(ExtractedDoc(doc, r), ExtractionPoint(doc, r), Mark(color, []));
      var mp := InsertedPath(ExtractedDoc(doc, r), ExtractionPoint(doc, r));
      NodeAt(y, mp) == Some(Mark(color, []))
      && ReplaceAt(y, mp, Mark(color, Fragment(doc, r))) == Wrapped(doc, r, color)
  {
    var c := Container(doc, r);
    ExtractInsertText(doc, r, Mark(color, []));
    WrappedChildrenOfText(doc, r, color);
    var pp, i := WrapParent(doc, r), r.container[|r.container| - 1];
    var d, a, b := c.data, r.start[0], r.end[0];
    assert Mark(color, Fragment(doc, r)) == Mark(color, [Text(d[a..b])]);
    FillAtParent(doc, pp, NodeAt(doc, pp).value, i, d, a, b, color);
  }

  /** In the parent `p` at `pp`, an empty mark between the halves of a split Text child, filled
      with the selected text, gives the parent of the wrapped document. */
  lemma FillAtParent(doc: Node, pp: seq<nat>, p: Node, i: nat, d: string, a: nat, b: nat, color: string)
    requires NodeAt(doc, pp) == Some(p) && p.Element? && i < |p.children| && a <= b <= |d|
    ensures var ch := p.children;
      var y := ReplaceAt(doc, pp, p.(children := ch[..i] + [Text(d[..a]), Mark(color, []), Text(d[b..])] + ch[i + 1..]));
      NodeAt(y, pp + [i + 1]) == Some(Mark(color, []))
      && ReplaceAt(y, pp + [i + 1], Mark(color, [Text(d[a..b])]))
         == ReplaceAt(doc, pp, p.(children := ch[..i] + [Text(d[..a]), Mark(color, [Text(d[a..b])]), Text(d[b..])] + ch[i + 1..]))
  {
    var ch := p.children;
    var y0 := p.(children := ch[..i] + [Text(d[..a]), Mark(color, []), Text(d[b..])] + ch[i + 1..]);
    FillInsertedMark(ch, i, d, a, b, color);
    ReplaceAtThenChild(doc, pp, y0, i + 1, Mark(color, [Text(d[a..b])]));
    ReplaceAtBelow(doc, pp, y0, [i + 1]);
    assert NodeAt(y0, [i + 1]) == Some(Mark(color, [])) by {
      assert [i + 1][1..] == [];
    }
  }

  /** Filling the empty mark that sits between the halves of a split Text node with the
      selected text gives the wrapped child list. */
  lemma FillInsertedMark(ch: seq<Node>, i: nat, d: string, a: nat, b: nat, color: string)
    requires i < |ch| && a <= b <= |d|
    ensures var y := ch[..i] + [Text(d[..a]), Mark(color, []), Text(d[b..])] + ch[i + 1..];
      i + 1 < |y| && y[i + 1] == Mark(color, [])
      && y[i + 1 := Mark(color, [Text(d[a..b])])]
         == ch[..i] + [Text(d[..a]), Mark(color, [Text(d[a..b])]), Text(d[b..])] + ch[i + 1..]
  {
    var y := ch[..i] + [Text(d[..a]), Mark(color, []), Text(d[b..])] + ch[i + 1..];
    assert |ch[..i]| == i;
  }

  /** The wrapped child list of a Text container, written out. */
  lemma WrappedChildrenOfText(doc: Node, r: Range, color: string)
    requires IsDocument(doc) && ValidRange(doc, r) && Container(doc, r).Text?
    ensures r.container != [] && r.container[|r.container| - 1] < |NodeAt(doc, WrapParent(doc, r)).value.children|
    ensures var ch, i := NodeAt(doc, WrapParent(doc, r)).value.children, r.container[|r.container| - 1];
      var d, a, b := Container(doc, r).data, r.start[0], r.end[0];
      a <= b <= |d|
      && WrappedChildren(doc, r, color)
         == ch[..i] + [Text(d[..a]), Mark(color, [Text(d[a..b])]), Text(d[b..])] + ch[i + 1..]
  {
    TextContainerHasParent(doc, r);
  }

  lemma SurroundWrapsElement(doc: Node, r: Range, color: string)
    requires IsDocument(doc) && ValidRange(doc, r) && Container(doc, r).Element?
    ensures CanInsert(ExtractedDoc(doc, r), ExtractionPoint(doc, r))
    ensures var y := InsertedDoc(ExtractedDoc(doc, r), ExtractionPoint(doc, r), Mark(color, []));
      var mp := InsertedPath(ExtractedDoc(doc, r), ExtractionPoint(doc, r));
      NodeAt(y, mp) == Some(Mark(color, []))
      && ReplaceAt(y, mp, Mark(color, Fragment(doc, r))) == Wrapped(doc, r, color)
  {
    var c := Container(doc, r);
    var m0, m := Mark(color, []), Mark(color, Fragment(doc, r));
    ExtractInsertElement(doc, r, m0);
    var e := Extract(c, r.start, r.end);
    var k := |e.before|;
    var y0 := c.(children := e.before + [m0] + e.after);
    ReplaceAtThenChild(doc, r.container, y0, k, m);
    assert y0.(children := y0.children[k := m]) == c.(children := e.before + [m] + e.after);
    ReplaceAtBelow(doc, r.container, y0, [k]);
  }

  // ---------------------------------------------------------------------------------------
  // One click of the highlight button, as a value
  // ---------------------------------------------------------------------------------------

  /** What a click reports: the two alerts, or which of the two edits it made. */
  datatype Outcome = NoDocument | NoSelection | Removed | Highlighted

  /** The outcome of a click together with the frame's document, its selection and the
      `currentHtml` snapshot afterwards. */
  datatype Click = Click(outcome: Outcome, doc: Node, selection: Option<Range>, currentHtml: Option<string>)

  /** The path of the mark a Remove click unwraps: never the document element itself. */
  lemma InspectedMarkHasParent(doc: Node, r: Range)
    requires IsDocument(doc) && ValidRange(doc, r) && Classify(doc, r) == Remove
    ensures InspectedPath(doc, r) != []
  {
  }

  /** The handler on a document, a selection, a snapshot and the picked colour. */
  function ClickResult(doc: Node, sel: Option<Range>, html: Option<string>, color: string): (c: Click)
    requires IsDocument(doc) && (sel.Some? ==> ValidRange(doc, sel.value))
    ensures c.outcome == NoDocument <==> !Truthy(html)
    ensures c.outcome == NoSelection <==>
      (Truthy(html) && (sel.None? || Collapsed(sel.value) || Trim(SelectedText(doc, sel.value)) == []))
    ensures c.outcome == Removed <==>
      (Truthy(html) && sel.Some? && !Collapsed(sel.value)
       && Trim(SelectedText(doc, sel.value)) != [] && Classify(doc, sel.value) == Remove)
    ensures c.outcome in {NoDocument, NoSelection} ==> c == Click(c.outcome, doc, sel, html)
    ensures c.outcome in {Removed, Highlighted} ==>
      IsDocument(c.doc) && c.selection == None && c.currentHtml == Some(OuterHtml(c.doc))
      && TextOf(c.doc) == TextOf(doc)
  {
    if !Truthy(html) then Click(NoDocument, doc, sel, html)
    else if sel.None? || Collapsed(sel.value) || Trim(SelectedText(doc, sel.value)) == [] then
      Click(NoSelection, doc, sel, html)
    else
      var r := sel.value;
      if Classify(doc, r) == Remove then
        InspectedMarkHasParent(doc, r);
        var mp := InspectedPath(doc, r);
        UnwrapKeepsDocText(doc, mp);
        UnwrapKeepsDocument(doc, mp);
        var d := Unwrapped(doc, mp);
        Click(Removed, d, None, Some(OuterHtml(d)))
      else
        WrapKeepsDocText(doc, r, color);
        WrapKeepsDocument(doc, r, color);
        var d := Wrapped(doc, r, color);
        Click(Highlighted, d, None, Some(OuterHtml(d)))
  }

  /** Unwrapping leaves the document element an `html` element. */
  lemma UnwrapKeepsDocument(doc: Node, mp: seq<nat>)
    requires IsDocument(doc) && mp != [] && NodeAt(doc, mp).Some? && NodeAt(doc, mp).value.Element?
    ensures IsDocument(Unwrapped(doc, mp))
  {
    NodeAtParent(doc, mp);
    if |mp| == 1 {
      assert mp[..|mp| - 1] == [];
    }
  }

  /** Wrapping leaves the document element an `html` element. */
  lemma WrapKeepsDocument(doc: Node, r: Range, color: string)
    requires IsDocument(doc) && ValidRange(doc, r)
    ensures IsDocument(Wrapped(doc, r, color))
  {
  }

  /** Wrapping a selection and then unwrapping the new mark gives back the document's text,
      whatever the container. */
  lemma WrapThenUnwrapKeepsText(doc: Node, r: Range, color: string)
    requires IsDocument(doc) && ValidRange(doc, r)
    ensures var mp := WrapParent(doc, r) + [WrapIndex(doc, r)];
      NodeAt(Wrapped(doc, r, color), mp).Some? && NodeAt(Wrapped(doc, r, color), mp).value.Element?
      && TextOf(Unwrapped(Wrapped(doc, r, color), mp)) == TextOf(doc)
  {
    WrapMarkHoldsSelection(doc, r, color);
    WrapKeepsDocText(doc, r, color);
    UnwrapKeepsDocText(Wrapped(doc, r, color), WrapParent(doc, r) + [WrapIndex(doc, r)]);
  }

  /** A selection inside one Text node is wrapped in a mark holding that text as its one child. */
  lemma WrappedTextMark(doc: Node, r: Range, color: string)
    requires IsDocument(doc) && ValidRange(doc, r) && Container(doc, r).Text?
    ensures var c := Container(doc, r);
      NodeAt(Wrapped(doc, r, color), WrapParent(doc, r) + [WrapIndex(doc, r)])
      == Some(Mark(color, [Text(c.data[r.start[0]..r.end[0]])]))
  {
    TextContainerHasParent(doc, r);
    var pp := WrapParent(doc, r);
    var i := r.container[|r.container| - 1];
    var ch := WrappedChildren(doc, r, color);
    assert |NodeAt(doc, pp).value.children[..i]| == i;
    ReplaceAtBelow(doc, pp, NodeAt(doc, pp).value.(children := ch), [i + 1]);
  }

  /** A document element always serializes to a non-empty string. */
  lemma OuterHtmlNonEmpty(doc: Node)
    requires IsDocument(doc)
    ensures OuterHtml(doc) != ""
  {
  }

  /** A click whose guards pass on a selection whose inspected node is not a mark wraps it. */
  lemma ClickAdds(doc: Node, r: Range, html: Option<string>, color: string)
    requires IsDocument(doc) && ValidRange(doc, r) && Truthy(html) && !Collapsed(r)
    requires Trim(SelectedText(doc, r)) != [] && Classify(doc, r) == Add
    ensures ClickResult(doc, Some(r), html, color)
            == Click(Highlighted, Wrapped(doc, r, color), None, Some(OuterHtml(Wrapped(doc, r, color))))
  {
  }

  /** A click whose guards pass on a selection whose inspected node is a mark unwraps it. */
  lemma ClickRemoves(doc: Node, r: Range, html: Option<string>, color: string)
    requires IsDocument(doc) && ValidRange(doc, r) && Truthy(html) && !Collapsed(r)
    requires Trim(SelectedText(doc, r)) != [] && Classify(doc, r) == Remove
    ensures InspectedPath(doc, r) != []
    ensures ClickResult(doc, Some(r), html, color)
            == Click(Removed, Unwrapped(doc, InspectedPath(doc, r)), None,
                     Some(OuterHtml(Unwrapped(doc, InspectedPath(doc, r)))))
  {
    InspectedMarkHasParent(doc, r);
  }

  /** The round trip through the button: after a click has highlighted a selection inside one
      Text node, selecting the new mark's text and clicking again classifies as a removal and
      gives back the original markup. */
  lemma ReselectTogglesOff(doc: Node, r: Range, html: Option<string>, color: string)
    requires IsDocument(doc) && ValidRange(doc, r) && Container(doc, r).Text?
    requires Truthy(html) && !Collapsed(r) && Trim(SelectedText(doc, r)) != [] && Classify(doc, r) == Add
    ensures var w, mp := Wrapped(doc, r, color), WrapParent(doc, r) + [WrapIndex(doc, r)];
      var r2 := Range(mp + [0], [0], [r.end[0] - r.start[0]]);
      ClickResult(doc, Some(r), html, color) == Click(Highlighted, w, None, Some(OuterHtml(w)))
      && IsDocument(w) && ValidRange(w, r2)
      && SelectedText(w, r2) == SelectedText(doc, r)
      && ClickResult(w, Some(r2), Some(OuterHtml(w)), color).outcome == Removed
      && OuterHtml(ClickResult(w, Some(r2), Some(OuterHtml(w)), color).doc) == OuterHtml(doc)
  {
    var w := Wrapped(doc, r, color);
    var mp := WrapParent(doc, r) + [WrapIndex(doc, r)];
    var r2 := Range(mp + [0], [0], [r.end[0] - r.start[0]]);
    ClickAdds(doc, r, html, color);
    ReselectMark(doc, r, color);
    WrapKeepsDocument(doc, r, color);
    OuterHtmlNonEmpty(w);
    ClickRemoves(w, r2, Some(OuterHtml(w)), color);
    ToggleRestoresMarkup(doc, r, color);
  }

  /** Selecting the whole text of a mark made from a Text container selects the same text and
      classifies as a removal of that mark. */
  lemma ReselectMark(doc: Node, r: Range, color: string)
    requires IsDocument(doc) && ValidRange(doc, r) && Container(doc, r).Text?
    ensures var w, mp := Wrapped(doc, r, color), WrapParent(doc, r) + [WrapIndex(doc, r)];
      var r2 := Range(mp + [0], [0], [r.end[0] - r.start[0]]);
      IsDocument(w) && ValidRange(w, r2) && Collapsed(r2) == Collapsed(r)
      && SelectedText(w, r2) == SelectedText(doc, r)
      && InspectedPath(w, r2) == mp && Classify(w, r2) == Remove
  {
    var w := Wrapped(doc, r, color);
    var c := Container(doc, r);
    var a, b := r.start[0], r.end[0];
    var mp := WrapParent(doc, r) + [WrapIndex(doc, r)];
    var r2 := Range(mp + [0], [0], [b - a]);
    WrapKeepsDocument(doc, r, color);
    WrappedTextMark(doc, r, color);
    NodeAtChild(w, mp, 0);
    assert NodeAt(w, r2.container) == Some(Text(c.data[a..b]));
    assert (mp + [0])[..|mp + [0]| - 1] == mp;
  }

  /** A document whose one mark holds a `b` holding one Text node. */
  function MarkedBold(color: string, t: string): Node {
    Element("html", [], [Mark(color, [Element("b", [], [Text(t)])])])
  }

  /** `r` selects text `t` in a Text node whose inspected node is not a mark but lies below
      the mark at `q`; every guard of the handler but the snapshot's passes, and the new mark
      would go to `mp`. */
  predicate SelectedBelowMark(doc: Node, r: Range, q: seq<nat>, mp: seq<nat>, t: string) {
    && IsDocument(doc) && ValidRange(doc, r) && Container(doc, r).Text?
    && !Collapsed(r) && Trim(SelectedText(doc, r)) != [] && Classify(doc, r) == Add
    && MarkAbove(doc, r, q, mp, t)
  }

  /** The mark at `q` is a proper ancestor of the inspected node, the new mark would go to
      `mp`, and `t` is the selected part of the Text container. */
  predicate MarkAbove(doc: Node, r: Range, q: seq<nat>, mp: seq<nat>, t: string)
    requires IsDocument(doc) && ValidRange(doc, r) && Container(doc, r).Text?
  {
    && IsPrefix(q, WrapParent(doc, r)) && q != WrapParent(doc, r)
    && NodeAt(doc, q).Some? && IsMark(NodeAt(doc, q).value)
    && mp == WrapParent(doc, r) + [WrapIndex(doc, r)]
    && t == Container(doc, r).data[r.start[0]..r.end[0]]
  }

  /** Selecting the Text node of `MarkedBold` whole: the inspected node is the `b`. */
  lemma SelectionBelowMark(doc: Node, r: Range, color: string, t: string)
    requires doc == MarkedBold(color, t) && r == Range([0, 0, 0], [0], [|t|])
    requires Trim(t) != []
    ensures SelectedBelowMark(doc, r, [0], [0, 0, 1], t)
  {
    MarkedBoldText(doc, r, color, t);
    MarkedBoldInspected(doc, r, color, t);
    MarkAboveFromParts(doc, r, t);
    SelectedBelowMarkFromParts(doc, r, t);
  }

  /** The guards, from the facts the lemmas below give. */
  lemma SelectedBelowMarkFromParts(doc: Node, r: Range, t: string)
    requires IsDocument(doc) && ValidRange(doc, r) && Container(doc, r) == Text(t)
    requires r.start == [0] && r.end == [|t|] && SelectedText(doc, r) == t && Trim(t) != []
    requires Classify(doc, r) == Add && MarkAbove(doc, r, [0], [0, 0, 1], t)
    ensures SelectedBelowMark(doc, r, [0], [0, 0, 1], t)
  {
    assert |t| > 0;
  }

  /** The positions, from the facts the two lemmas below give. */
  lemma MarkAboveFromParts(doc: Node, r: Range, t: string)
    requires IsDocument(doc) && ValidRange(doc, r) && Container(doc, r) == Text(t)
    requires r.start == [0] && r.end == [|t|]
    requires InspectedPath(doc, r) == [0, 0] && WrapIndex(doc, r) == 1
    requires NodeAt(doc, [0]).Some? && IsMark(NodeAt(doc, [0]).value)
    ensures MarkAbove(doc, r, [0], [0, 0, 1], t)
  {
    assert IsPrefix([0], [0, 0]);
    assert [0, 0] + [1] == [0, 0, 1];
    assert t[0..|t|] == t;
  }

  lemma MarkedBoldText(doc: Node, r: Range, color: string, t: string)
    requires doc == MarkedBold(color, t) && r == Range([0, 0, 0], [0], [|t|])
    ensures IsDocument(doc) && ValidRange(doc, r) && Container(doc, r) == Text(t)
    ensures SelectedText(doc, r) == t
  {
    assert NodeAt(doc, [0, 0, 0]) == Some(Text(t));
    assert t[0..|t|] == t;
  }

  lemma MarkedBoldInspected(doc: Node, r: Range, color: string, t: string)
    requires doc == MarkedBold(color, t) && r == Range([0, 0, 0], [0], [|t|])
    requires IsDocument(doc) && ValidRange(doc, r) && Container(doc, r) == Text(t)
    ensures InspectedPath(doc, r) == [0, 0] && Classify(doc, r) == Add && WrapIndex(doc, r) == 1
    ensures NodeAt(doc, [0]).Some? && IsMark(NodeAt(doc, [0]).value)
  {
    assert [0, 0, 0][..2] == [0, 0];
  }

  /** Wrapping a selection whose inspected node lies below a mark keeps that mark, so the new
      mark ends up inside it. */
  lemma WrapBelowMark(doc: Node, r: Range, color: string, q: seq<nat>)
    requires IsDocument(doc) && ValidRange(doc, r) && Container(doc, r).Text?
    requires IsPrefix(q, WrapParent(doc, r)) && q != WrapParent(doc, r)
    requires NodeAt(doc, q).Some? && IsMark(NodeAt(doc, q).value)
    ensures NodeAt(Wrapped(doc, r, color), q).Some? && IsMark(NodeAt(Wrapped(doc, r, color), q).value)
    ensures NodeAt(Wrapped(doc, r, color), WrapParent(doc, r) + [WrapIndex(doc, r)])
            == Some(Mark(color, [Text(Container(doc, r).data[r.start[0]..r.end[0]])]))
  {
    WrappedTextMark(doc, r, color);
    var pp := WrapParent(doc, r);
    ReplaceAtAncestor(doc, pp, NodeAt(doc, pp).value.(children := WrappedChildren(doc, r, color)), q);
  }

  /** A click on `r` highlights it, and afterwards the node at `q` is a mark holding, at
      `mp`, a new mark with the text `t`. */
  predicate HighlightsInsideMark(doc: Node, r: Range, html: Option<string>, color: string,
                                 q: seq<nat>, mp: seq<nat>, t: string)
  {
    && IsDocument(doc) && ValidRange(doc, r)
    && var c := ClickResult(doc, Some(r), html, color);
       && c.outcome == Highlighted
       && NodeAt(c.doc, q).Some? && IsMark(NodeAt(c.doc, q).value)
       && NodeAt(c.doc, mp) == Some(Mark(color, [Text(t)]))
  }

  /** A click on a selection whose inspected node is not a mark but lies below one wraps the
      selection in a new mark inside the old one. */
  lemma ClickBelowMark(doc: Node, r: Range, html: Option<string>, color: string,
                       q: seq<nat>, mp: seq<nat>, t: string)
    requires Truthy(html) && SelectedBelowMark(doc, r, q, mp, t)
    ensures HighlightsInsideMark(doc, r, html, color, q, mp, t)
  {
    ClickAdds(doc, r, html, color);
    WrapBelowMark(doc, r, color, q);
  }

  /** The classification looks at one node only, so selecting the text of a `b` inside an
      existing mark wraps it again: the result holds a mark inside a mark. */
  lemma NestedMarkPossible(doc: Node, r: Range, t: string, html: Option<string>, color: string)
    requires doc == MarkedBold(color, t) && r == Range([0, 0, 0], [0], [|t|])
    requires Trim(t) != [] && Truthy(html)
    ensures HighlightsInsideMark(doc, r, html, color, [0], [0, 0, 1], t)
  {
    SelectionBelowMark(doc, r, color, t);
    ClickBelowMark(doc, r, html, color, [0], [0, 0, 1], t);
  }
}
