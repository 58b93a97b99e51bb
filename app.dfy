/**
  The page script's state (public/app.js): the `currentHtml` snapshot, the preview frame's
  `srcdoc` and document, the user's selection in the frame, and the highlight colour picked
  from the `.color-option` swatches; the highlight button's click handler working on the
  frame's document through the DOM operations it calls, one by one.
*/
module PreviewApp {
  import opened Wrappers
  import opened JsStrings
  import opened Dom
  import opened Highlight

  /** One `.color-option` swatch: its `data-color` and whether it carries the `active` class. */
  datatype ColorOption = ColorOption(color: string, active: bool)

  /** The swatches after a click on swatch `i`: exactly that one is active. */
  function ActivateOnly(options: seq<ColorOption>, i: nat): (r: seq<ColorOption>)
    requires i < |options|
    ensures |r| == |options|
    ensures forall j :: 0 <= j < |r| ==> r[j].color == options[j].color
    ensures forall j :: 0 <= j < |r| ==> (r[j].active <==> j == i)
  {
    seq(|options|, j requires 0 <= j < |options| => options[j].(active := j == i))
  }

  /** `currentHtml || previewFrame.srcdoc`, then `if (!html) return alert(...)`: the markup
      export and save send, or None when both are empty. */
  function ExportedHtml(currentHtml: Option<string>, srcdoc: string): (r: Option<string>)
    ensures r.Some? <==> Truthy(currentHtml) || srcdoc != ""
    ensures r.Some? ==> r.value != ""
    ensures Truthy(currentHtml) ==> r == currentHtml
    ensures !Truthy(currentHtml) && srcdoc != "" ==> r == Some(srcdoc)
  {
    var html := OrElse(currentHtml, srcdoc);
    if html == "" then None else Some(html)
  }

  class PreviewSession {
    /** The preview frame's document element. */
    var doc: Node
    /** The frame's selection: None when it holds no range. */
    var selection: Option<Range>
    /** The last markup loaded or produced by a highlight edit; None while it is `null`. */
    var currentHtml: Option<string>
    var srcdoc: string
    var highlightColor: string
    var options: seq<ColorOption>

    ghost predicate Valid()
      reads this
    {
      IsDocument(doc) && (selection.Some? ==> ValidRange(doc, selection.value))
    }

    /** Page load: no snapshot yet, the default colour, the frame's empty document. */
    constructor (blank: Node, swatches: seq<ColorOption>)
      requires IsDocument(blank)
      ensures Valid()
      ensures doc == blank && selection == None && currentHtml == None && srcdoc == ""
      ensures highlightColor == "#f0d4ff" && options == swatches
    {
      doc := blank;
      selection := None;
      currentHtml := None;
      srcdoc := "";
      highlightColor := "#f0d4ff";
      options := swatches;
    }

    /** A document from the upload or from a saved project is shown: it becomes the snapshot
        and the frame's `srcdoc`; `parsed` is the tree the frame builds from it. */
    method Show(html: string, parsed: Node)
      requires IsDocument(parsed)
      modifies this
      ensures Valid()
      ensures currentHtml == Some(html) && srcdoc == html && doc == parsed && selection == None
      ensures highlightColor == old(highlightColor) && options == old(options)
    {
      currentHtml := Some(html);
      srcdoc := html;
      doc := parsed;
      selection := None;
    }

    /** The upload's answer: a falsy `html` is an error and changes nothing. */
    method ShowUpload(html: Option<string>, parsed: Node) returns (ok: bool)
      requires Valid() && IsDocument(parsed)
      modifies this
      ensures Valid()
      ensures ok <==> Truthy(html)
      ensures ok ==> currentHtml == html && srcdoc == html.value && doc == parsed && selection == None
      ensures !ok ==> currentHtml == old(currentHtml) && srcdoc == old(srcdoc) && doc == old(doc)
                      && selection == old(selection)
      ensures highlightColor == old(highlightColor) && options == old(options)
    {
      if !Truthy(html) {
        return false;
      }
      Show(html.value, parsed);
      ok := true;
    }

    /** The user selects a range in the frame, or clears the selection. */
    method Select(r: Option<Range>)
      requires Valid() && (r.Some? ==> ValidRange(doc, r.value))
      modifies this
      ensures Valid() && selection == r
      ensures doc == old(doc) && currentHtml == old(currentHtml) && srcdoc == old(srcdoc)
      ensures highlightColor == old(highlightColor) && options == old(options)
    {
      selection := r;
    }

    /** A click on swatch `i`: every swatch loses `active`, swatch `i` gains it, and its
        `data-color` becomes the highlight colour. */
    method PickColor(i: nat)
      requires i < |options|
      modifies this
      ensures options == ActivateOnly(old(options), i)
      ensures highlightColor == old(options)[i].color
      ensures doc == old(doc) && selection == old(selection)
      ensures currentHtml == old(currentHtml) && srcdoc == old(srcdoc)
    {
      var k := 0;
      while k < |options|
        invariant k <= |options| == |old(options)|
        invariant forall j :: 0 <= j < k ==> options[j] == old(options)[j].(active := false)
        invariant forall j :: k <= j < |options| ==> options[j] == old(options)[j]
        invariant doc == old(doc) && selection == old(selection)
        invariant currentHtml == old(currentHtml) && srcdoc == old(srcdoc)
      {
        options := options[k := options[k].(active := false)];
        k := k + 1;
      }
      options := options[i := options[i].(active := true)];
      highlightColor := options[i].color;
    }

    /** What export and save send. */
    method Exported() returns (html: Option<string>)
      ensures html == ExportedHtml(currentHtml, srcdoc)
    {
      html := ExportedHtml(currentHtml, srcdoc);
    }

    // -------------------------------------------------------------------------------------
    // The DOM operations the handler calls
    // -------------------------------------------------------------------------------------

    /** `range.extractContents()`: the fragment, and the point the range collapses to. */
    method ExtractContents(r: Range) returns (fragment: seq<Node>, at: Boundary)
      requires IsDocument(doc) && ValidRange(doc, r)
      modifies this`doc
      ensures doc == ExtractedDoc(old(doc), r) && IsDocument(doc) && CanInsert(doc, at)
      ensures fragment == Fragment(old(doc), r) && at == ExtractionPoint(old(doc), r)
    {
      ExtractionLeavesInsertPoint(doc, r);
      fragment := Fragment(doc, r);
      at := ExtractionPoint(doc, r);
      doc := ExtractedDoc(doc, r);
    }

    /** `range.insertNode(node)` on a collapsed range: where the node went. */
    method InsertNode(at: Boundary, node: Node) returns (p: seq<nat>)
      requires CanInsert(doc, at)
      modifies this`doc
      ensures doc == InsertedDoc(old(doc), at, node) && p == InsertedPath(old(doc), at)
    {
      p := InsertedPath(doc, at);
      doc := InsertedDoc(doc, at, node);
    }

    /** `node.appendChild(fragment)` on the element at `p`. */
    method AppendChildren(p: seq<nat>, nodes: seq<Node>)
      requires NodeAt(doc, p).Some? && NodeAt(doc, p).value.Element?
      modifies this`doc
      ensures doc == ReplaceAt(old(doc), p, NodeAt(old(doc), p).value.(children :=
                NodeAt(old(doc), p).value.children + nodes))
    {
      var n := NodeAt(doc, p).value;
      doc := ReplaceAt(doc, p, n.(children := n.children + nodes));
    }

    /** `range.surroundContents(mark)` with a fresh mark in colour `color`: it throws, changing
        nothing, when the range partially contains an element; otherwise it extracts the
        contents, inserts the mark at the collapsed point and appends the contents to it. */
    method SurroundContents(r: Range, color: string) returns (thrown: bool)
      requires IsDocument(doc) && ValidRange(doc, r)
      modifies this`doc
      ensures thrown <==> Container(old(doc), r).Element?
                          && PartialElement(Container(old(doc), r), r.start, r.end)
      ensures thrown ==> doc == old(doc)
      ensures !thrown ==> doc == Wrapped(old(doc), r, color)
    {
      var c := Container(doc, r);
      if c.Element? && PartialElement(c, r.start, r.end) {
        return true;
      }
      InsertThenAppend(r, color);
      thrown := false;
    }

    /** The steps of `surroundContents` once its check has passed: extract the contents,
        insert the empty mark at the collapsed point, append the contents to the mark. */
    method InsertThenAppend(r: Range, color: string)
      requires IsDocument(doc) && ValidRange(doc, r)
      modifies this`doc
      ensures doc == Wrapped(old(doc), r, color)
    {
      ghost var doc0 := doc;
      SurroundWraps(doc0, r, color);
      ghost var y := InsertedDoc(ExtractedDoc(doc0, r), ExtractionPoint(doc0, r), Mark(color, []));
      var fragment, at := ExtractContents(r);
      var mp := InsertNode(at, Mark(color, []));
      assert doc == y && NodeAt(doc, mp) == Some(Mark(color, []));
      assert Mark(color, []).(children := Mark(color, []).children + fragment) == Mark(color, fragment);
      AppendChildren(mp, fragment);
      assert doc == ReplaceAt(y, mp, Mark(color, Fragment(doc0, r)));
    }

    /** The unwrapping loop: while the mark at `mp` has a first child, that child is moved in
        front of the mark; then the empty mark is removed from its parent. */
    method UnwrapMark(mp: seq<nat>)
      requires mp != [] && NodeAt(doc, mp).Some? && NodeAt(doc, mp).value.Element?
      modifies this`doc
      ensures doc == Unwrapped(old(doc), mp)
    {
      NodeAtParent(doc, mp);
      var pp, i := mp[..|mp| - 1], mp[|mp| - 1];
      var parent := NodeAt(doc, pp).value;
      var mark := parent.children[i];
      ghost var doc0 := doc;
      var kids := parent.children;
      var at := i;
      ReplaceAtSame(doc0, pp);
      assert mark.children[0..] == mark.children && parent.children == parent.children[..i] + [mark] + parent.children[i + 1..];
      while kids[at].children != []
        invariant i <= at <= i + |mark.children|
        invariant kids == parent.children[..i] + mark.children[..at - i]
                          + [mark.(children := mark.children[at - i..])] + parent.children[i + 1..]
        invariant doc == ReplaceAt(doc0, pp, parent.(children := kids))
        decreases |mark.children| - (at - i)
      {
        MoveFirstChildOut(parent.children, mark, i, at - i);
        ghost var prev := kids;
        kids := kids[..at] + [kids[at].children[0], kids[at].(children := kids[at].children[1..])] + kids[at + 1..];
        at := at + 1;
        ReplaceAtTwice(doc0, pp, parent.(children := prev), parent.(children := kids));
        doc := ReplaceAt(doc, pp, parent.(children := kids));
      }
      RemoveEmptyMark(parent.children, mark, i, at - i);
      ghost var prev := kids;
      kids := kids[..at] + kids[at + 1..];
      ReplaceAtTwice(doc0, pp, parent.(children := prev), parent.(children := kids));
      doc := ReplaceAt(doc, pp, parent.(children := kids));
    }

    /** The add branch: a fresh mark in the picked colour is wrapped around the range by
        `surroundContents`, or, when that throws, by extracting the contents, appending them to
        the mark and inserting it. */
    method AddHighlight(r: Range)
      requires IsDocument(doc) && ValidRange(doc, r)
      modifies this`doc
      ensures doc == Wrapped(old(doc), r, highlightColor)
    {
      var thrown := SurroundContents(r, highlightColor);
      if thrown {
        ExtractAppendInsertWraps(doc, r, highlightColor);
        var fragment, at := ExtractContents(r);
        var mark := Mark(highlightColor, []);
        mark := mark.(children := mark.children + fragment);
        assert mark == Mark(highlightColor, Fragment(old(doc), r));
        var _ := InsertNode(at, mark);
      }
    }

    /** The highlight button. */
    method HighlightClick() returns (outcome: Outcome)
      requires Valid()
      modifies this`doc, this`selection, this`currentHtml
      ensures Valid()
      ensures Click(outcome, doc, selection, currentHtml)
              == ClickResult(old(doc), old(selection), old(currentHtml), highlightColor)
    {
      if !Truthy(currentHtml) {
        return NoDocument;
      }
      if selection.None? || Collapsed(selection.value) {
        return NoSelection;
      }
      var r := selection.value;
      var selectedText := SelectedText(doc, r);
      if Trim(selectedText) == [] {
        return NoSelection;
      }
      outcome := Toggle(r);
    }

    /** The handler once its guards have passed: unwrap the inspected mark or wrap the
        selection in a new one. */
    method Toggle(r: Range) returns (outcome: Outcome)
      requires Valid() && selection == Some(r) && Truthy(currentHtml)
      requires !Collapsed(r) && Trim(SelectedText(doc, r)) != []
      modifies this`doc, this`selection, this`currentHtml
      ensures Valid()
      ensures Click(outcome, doc, selection, currentHtml)
              == ClickResult(old(doc), Some(r), old(currentHtml), highlightColor)
    {
      ghost var doc0, html0 := doc, currentHtml;
      var inspected := InspectedPath(doc, r);
      if IsMark(NodeAt(doc, inspected).value) {
        ClickRemoves(doc0, r, html0, highlightColor);
        RemoveHighlight(inspected);
        outcome := Removed;
      } else {
        ClickAdds(doc0, r, html0, highlightColor);
        AddHighlightAndSync(r);
        outcome := Highlighted;
      }
    }

    /** The remove branch, then the selection cleared and the snapshot refreshed. */
    method RemoveHighlight(mp: seq<nat>)
      requires IsDocument(doc) && mp != [] && NodeAt(doc, mp).Some? && NodeAt(doc, mp).value.Element?
      modifies this`doc, this`selection, this`currentHtml
      ensures Valid()
      ensures doc == Unwrapped(old(doc), mp) && selection == None && currentHtml == Some(OuterHtml(doc))
    {
      ghost var doc0 := doc;
      UnwrapMark(mp);
      UnwrapKeepsDocument(doc0, mp);
      selection := None;
      currentHtml := Some(OuterHtml(doc));
    }

    /** The add branch, then the selection cleared and the snapshot refreshed. */
    method AddHighlightAndSync(r: Range)
      requires IsDocument(doc) && ValidRange(doc, r)
      modifies this`doc, this`selection, this`currentHtml
      ensures Valid()
      ensures doc == Wrapped(old(doc), r, highlightColor) && selection == None
      ensures currentHtml == Some(OuterHtml(doc))
    {
      ghost var doc0 := doc;
      AddHighlight(r);
      WrapKeepsDocument(doc0, r, highlightColor);
      selection := None;
      currentHtml := Some(OuterHtml(doc));
    }
  }

  /** One turn of the unwrapping loop on the parent's child list: the mark's next child moves
      in front of it. */
  lemma MoveFirstChildOut(ch: seq<Node>, mark: Node, i: nat, k: nat)
    requires i < |ch| && mark.Element? && k < |mark.children|
    ensures var kids := ch[..i] + mark.children[..k] + [mark.(children := mark.children[k..])] + ch[i + 1..];
      var at := i + k;
      at < |kids| && kids[at] == mark.(children := mark.children[k..])
      && kids[..at] + [kids[at].children[0], kids[at].(children := kids[at].children[1..])] + kids[at + 1..]
         == ch[..i] + mark.children[..k + 1] + [mark.(children := mark.children[k + 1..])] + ch[i + 1..]
  {
    var kids := ch[..i] + mark.children[..k] + [mark.(children := mark.children[k..])] + ch[i + 1..];
    assert kids[..i + k] == ch[..i] + mark.children[..k];
    assert kids[i + k + 1..] == ch[i + 1..];
    assert mark.children[..k + 1] == mark.children[..k] + [mark.children[k]];
    assert mark.children[k..][1..] == mark.children[k + 1..];
  }

  /** After the loop the emptied mark is removed: the children have taken its place. */
  lemma RemoveEmptyMark(ch: seq<Node>, mark: Node, i: nat, k: nat)
    requires i < |ch| && mark.Element? && k <= |mark.children| && ch[i] == mark
    requires var kids := ch[..i] + mark.children[..k] + [mark.(children := mark.children[k..])] + ch[i + 1..];
      kids[i + k].children == []
    ensures var kids := ch[..i] + mark.children[..k] + [mark.(children := mark.children[k..])] + ch[i + 1..];
      kids[..i + k] + kids[i + k + 1..] == Unwrap(ch, i)
  {
    var kids := ch[..i] + mark.children[..k] + [mark.(children := mark.children[k..])] + ch[i + 1..];
    assert kids[i + k] == mark.(children := mark.children[k..]);
    assert k == |mark.children|;
    assert kids[..i + k] == ch[..i] + mark.children;
    assert kids[i + k + 1..] == ch[i + 1..];
  }
}
