/**
  The slice of the DOM that the preview's highlight handler works on: a tree of elements and
  Text nodes, the text it shows, nodes addressed by their child-index path from the root,
  boundary points, the "extract" algorithm of the DOM standard that `surroundContents` and
  `extractContents` share, and the HTML serialisation behind `outerHTML`.
*/
module Dom {
  import opened Wrappers

  datatype Attr = Attr(name: string, value: string)

  /** An element (lower-case local name, attributes and children in order) or a Text node.
      Adjacent and empty Text nodes are allowed, as in a live DOM that was never normalised. */
  datatype Node =
    | Text(data: string)
    | Element(name: string, attrs: seq<Attr>, children: seq<Node>)

  // ---------------------------------------------------------------------------------------
  // Text content
  // ---------------------------------------------------------------------------------------

  /** The data of every Text node below `n`, in tree order. */
  function TextOf(n: Node): string
    decreases n
  {
    match n
    case Text(d) => d
    case Element(_, _, ch) => TextsOf(ch)
  }

  function TextsOf(ns: seq<Node>): string
    decreases ns
  {
    if ns == [] then [] else TextOf(ns[0]) + TextsOf(ns[1..])
  }

  lemma {:induction false} TextsOfAppend(a: seq<Node>, b: seq<Node>)
    ensures TextsOf(a + b) == TextsOf(a) + TextsOf(b)
    decreases |a|
  {
    if a == [] {
      assert a + b == b;
    } else {
      assert (a + b)[0] == a[0] && (a + b)[1..] == a[1..] + b;
      TextsOfAppend(a[1..], b);
    }
  }

  lemma TextsOfSplit(ns: seq<Node>, i: nat)
    requires i <= |ns|
    ensures TextsOf(ns) == TextsOf(ns[..i]) + TextsOf(ns[i..])
  {
    assert ns == ns[..i] + ns[i..];
    TextsOfAppend(ns[..i], ns[i..]);
  }

  /** Splitting a child list around child `i`. */
  lemma TextsOfAround(ns: seq<Node>, i: nat)
    requires i < |ns|
    ensures TextsOf(ns) == TextsOf(ns[..i]) + TextOf(ns[i]) + TextsOf(ns[i + 1..])
  {
    TextsOfSplit(ns, i);
    assert ns[i..][0] == ns[i] && ns[i..][1..] == ns[i + 1..];
    assert TextsOf(ns[i..]) == TextOf(ns[i]) + TextsOf(ns[i + 1..]);
  }

  lemma TextsOfSingle(n: Node)
    ensures TextsOf([n]) == TextOf(n)
  {
    assert [n][1..] == [];
  }

  lemma TextsOfThree(x: Node, y: Node, z: Node)
    ensures TextsOf([x, y, z]) == TextOf(x) + TextOf(y) + TextOf(z)
  {
    assert [x, y, z][1..] == [y, z] && [y, z][1..] == [z];
    TextsOfSingle(z);
    assert TextsOf([y, z]) == TextOf(y) + TextOf(z);
  }

  // ---------------------------------------------------------------------------------------
  // Paths
  // ---------------------------------------------------------------------------------------

  /** The node reached from `n` by following the child indexes of `p`. */
  function NodeAt(n: Node, p: seq<nat>): Option<Node>
    decreases p
  {
    if p == [] then Some(n)
    else if n.Element? && p[0] < |n.children| then NodeAt(n.children[p[0]], p[1..])
    else None
  }

  predicate IsPrefix(p: seq<nat>, q: seq<nat>) {
    |p| <= |q| && q[..|p|] == p
  }

  /** `n` with the node at `p` replaced by `m`: every ancestor on the way keeps its name,
      attributes and other children. */
  function ReplaceAt(n: Node, p: seq<nat>, m: Node): (r: Node)
    requires NodeAt(n, p).Some?
    ensures NodeAt(r, p) == Some(m)
    ensures p != [] ==> r.Element? && r.name == n.name && r.attrs == n.attrs
    ensures p != [] ==> |r.children| == |n.children|
    decreases p
  {
    if p == [] then m
    else n.(children := n.children[p[0] := ReplaceAt(n.children[p[0]], p[1..], m)])
  }

  /** Nodes that are neither ancestors nor descendants of the replaced one are untouched. */
  lemma {:induction false} ReplaceAtFrame(n: Node, p: seq<nat>, m: Node, q: seq<nat>)
    requires NodeAt(n, p).Some?
    requires !IsPrefix(p, q) && !IsPrefix(q, p)
    ensures NodeAt(ReplaceAt(n, p, m), q) == NodeAt(n, q)
    decreases p
  {
    assert p != [] && q != [];
    if p[0] == q[0] {
      PrefixCons(p, q);
      PrefixCons(q, p);
      ReplaceAtFrame(n.children[p[0]], p[1..], m, q[1..]);
    }
  }

  lemma PrefixCons(p: seq<nat>, q: seq<nat>)
    requires p != [] && q != [] && p[0] == q[0]
    ensures IsPrefix(p[1..], q[1..]) <==> IsPrefix(p, q)
  {
    if IsPrefix(p[1..], q[1..]) {
      assert q[..|p|] == [q[0]] + q[1..][..|p| - 1];
      assert p == [p[0]] + p[1..];
    }
    if IsPrefix(p, q) {
      assert q[1..][..|p| - 1] == q[..|p|][1..];
    }
  }

  /** Every proper ancestor of the replaced node keeps its name and attributes. */
  lemma {:induction false} ReplaceAtAncestor(n: Node, p: seq<nat>, m: Node, q: seq<nat>)
    requires NodeAt(n, p).Some? && IsPrefix(q, p) && q != p
    ensures NodeAt(n, q).Some? && NodeAt(ReplaceAt(n, p, m), q).Some?
    ensures var a, b := NodeAt(n, q).value, NodeAt(ReplaceAt(n, p, m), q).value;
      a.Element? && b.Element? && b.name == a.name && b.attrs == a.attrs
    decreases q
  {
    if q != [] {
      assert q[1..] == p[1..][..|q[1..]|];
      ReplaceAtAncestor(n.children[p[0]], p[1..], m, q[1..]);
    }
  }

  /** Below the replaced node, the tree is the new node's. */
  lemma {:induction false} ReplaceAtBelow(n: Node, p: seq<nat>, m: Node, q: seq<nat>)
    requires NodeAt(n, p).Some?
    ensures NodeAt(ReplaceAt(n, p, m), p + q) == NodeAt(m, q)
    decreases p
  {
    if p != [] {
      assert (p + q)[0] == p[0] && (p + q)[1..] == p[1..] + q;
      ReplaceAtBelow(n.children[p[0]], p[1..], m, q);
    } else {
      assert p + q == q;
    }
  }

  /** Putting back the node that is already there changes nothing. */
  lemma {:induction false} ReplaceAtSame(n: Node, p: seq<nat>)
    requires NodeAt(n, p).Some?
    ensures ReplaceAt(n, p, NodeAt(n, p).value) == n
    decreases p
  {
    if p != [] {
      ReplaceAtSame(n.children[p[0]], p[1..]);
      assert n.children[p[0] := n.children[p[0]]] == n.children;
    }
  }

  /** Replacing twice at the same path keeps only the second replacement. */
  lemma {:induction false} ReplaceAtTwice(n: Node, p: seq<nat>, m1: Node, m2: Node)
    requires NodeAt(n, p).Some?
    ensures ReplaceAt(ReplaceAt(n, p, m1), p, m2) == ReplaceAt(n, p, m2)
    decreases p
  {
    if p != [] {
      ReplaceAtTwice(n.children[p[0]], p[1..], m1, m2);
    }
  }

  /** Replacing a node by one with the same text leaves the text of the whole tree unchanged. */
  lemma {:induction false} ReplaceAtKeepsText(n: Node, p: seq<nat>, m: Node)
    requires NodeAt(n, p).Some? && TextOf(m) == TextOf(NodeAt(n, p).value)
    ensures TextOf(ReplaceAt(n, p, m)) == TextOf(n)
    decreases p
  {
    if p != [] {
      var i := p[0];
      var ch := n.children;
      var x := ReplaceAt(ch[i], p[1..], m);
      ReplaceAtKeepsText(ch[i], p[1..], m);
      TextsOfAround(ch, i);
      TextsOfAround(ch[i := x], i);
      assert ch[i := x][..i] == ch[..i] && ch[i := x][i + 1..] == ch[i + 1..];
    }
  }

  /** The parent of a node reached by a non-empty path is an element holding it at the last index. */
  lemma {:induction false} NodeAtParent(n: Node, p: seq<nat>)
    requires p != [] && NodeAt(n, p).Some?
    ensures NodeAt(n, p[..|p| - 1]).Some? && NodeAt(n, p[..|p| - 1]).value.Element?
    ensures p[|p| - 1] < |NodeAt(n, p[..|p| - 1]).value.children|
    ensures NodeAt(n, p[..|p| - 1]).value.children[p[|p| - 1]] == NodeAt(n, p).value
    decreases p
  {
    if |p| > 1 {
      assert p[1..][..|p[1..]| - 1] == p[..|p| - 1][1..];
      NodeAtParent(n.children[p[0]], p[1..]);
    }
  }

  lemma {:induction false} NodeAtChild(n: Node, p: seq<nat>, k: nat)
    requires NodeAt(n, p).Some? && NodeAt(n, p).value.Element? && k < |NodeAt(n, p).value.children|
    ensures NodeAt(n, p + [k]) == Some(NodeAt(n, p).value.children[k])
    decreases p
  {
    if p == [] {
      assert p + [k] == [k];
    } else {
      assert (p + [k])[0] == p[0] && (p + [k])[1..] == p[1..] + [k];
      NodeAtChild(n.children[p[0]], p[1..], k);
    }
  }

  /** Replacing a child of the node at `p`, seen from `p`. */
  lemma {:induction false} ReplaceAtChildView(n: Node, p: seq<nat>, k: nat, x: Node)
    requires NodeAt(n, p).Some? && NodeAt(n, p).value.Element? && k < |NodeAt(n, p).value.children|
    ensures NodeAt(n, p + [k]).Some?
    ensures NodeAt(ReplaceAt(n, p + [k], x), p)
            == Some(NodeAt(n, p).value.(children := NodeAt(n, p).value.children[k := x]))
    decreases p
  {
    NodeAtChild(n, p, k);
    if p == [] {
      assert p + [k] == [k];
    } else {
      assert (p + [k])[0] == p[0] && (p + [k])[1..] == p[1..] + [k];
      ReplaceAtChildView(n.children[p[0]], p[1..], k, x);
    }
  }

  /** Replacing a node below `p` and then the node at `p` keeps only the second replacement. */
  lemma {:induction false} ReplaceAtInside(n: Node, p: seq<nat>, q: seq<nat>, x: Node, y: Node)
    requires NodeAt(n, p + q).Some?
    ensures NodeAt(n, p).Some?
    ensures NodeAt(ReplaceAt(n, p + q, x), p).Some?
    ensures ReplaceAt(ReplaceAt(n, p + q, x), p, y) == ReplaceAt(n, p, y)
    decreases p
  {
    if p != [] {
      assert (p + q)[0] == p[0] && (p + q)[1..] == p[1..] + q;
      ReplaceAtInside(n.children[p[0]], p[1..], q, x, y);
    }
  }

  /** Replacing the node at `p` and then one of its children is one replacement at `p`. */
  lemma {:induction false} ReplaceAtThenChild(n: Node, p: seq<nat>, x: Node, k: nat, y: Node)
    requires NodeAt(n, p).Some? && x.Element? && k < |x.children|
    ensures NodeAt(ReplaceAt(n, p, x), p + [k]).Some?
    ensures ReplaceAt(ReplaceAt(n, p, x), p + [k], y) == ReplaceAt(n, p, x.(children := x.children[k := y]))
    decreases p
  {
    ReplaceAtBelow(n, p, x, [k]);
    if p != [] {
      assert (p + [k])[0] == p[0] && (p + [k])[1..] == p[1..] + [k];
      ReplaceAtThenChild(n.children[p[0]], p[1..], x, k, y);
    } else {
      assert p + [k] == [k];
    }
  }

  // ---------------------------------------------------------------------------------------
  // Boundary points
  // ---------------------------------------------------------------------------------------

  /** A boundary point inside `n`: the child-index path from `n` to the point's node, followed
      by the offset (a character offset in a Text node, a child index in an element). */
  predicate ValidPos(n: Node, p: seq<nat>)
    decreases n
  {
    |p| > 0 &&
    match n
    case Text(d) => |p| == 1 && p[0] <= |d|
    case Element(_, _, ch) =>
      if |p| == 1 then p[0] <= |ch|
      else p[0] < |ch| && ValidPos(ch[p[0]], p[1..])
  }

  /** How many characters of `TextOf(n)` lie before the boundary point `p`. */
  function Off(n: Node, p: seq<nat>): (r: nat)
    requires ValidPos(n, p)
    ensures r <= |TextOf(n)|
    decreases n
  {
    match n
    case Text(d) => p[0]
    case Element(_, _, ch) =>
      TextsOfSplit(ch, p[0]);
      if |p| == 1 then |TextsOf(ch[..p[0]])|
      else
        TextsOfAround(ch, p[0]);
        |TextsOf(ch[..p[0]])| + Off(ch[p[0]], p[1..])
  }

  // ---------------------------------------------------------------------------------------
  // Splitting a node at a boundary point (the partially contained nodes of an extraction)
  // ---------------------------------------------------------------------------------------

  /** The node `n` split at `p` into the part before the point and the part after it. A Text
      node's data is split; an element is cloned with its name and attributes, each copy takes
      the children on its side, and the split recurses into the child the path enters. When
      an extraction starts at `p`, the first part stays in the tree and the second goes into
      the fragment; when it ends at `p`, the other way round. */
  function SplitAt(n: Node, p: seq<nat>): (r: (Node, Node))
    requires ValidPos(n, p)
    ensures TextOf(r.0) == TextOf(n)[..Off(n, p)]
    ensures TextOf(r.1) == TextOf(n)[Off(n, p)..]
    ensures n.Element? ==> r.0.Element? && r.0.name == n.name && r.1.Element? && r.1.name == n.name
    decreases n
  {
    match n
    case Text(d) => (Text(d[..p[0]]), Text(d[p[0]..]))
    case Element(name, attrs, ch) =>
      TextsOfSplit(ch, p[0]);
      if |p| == 1 then
        (Element(name, attrs, ch[..p[0]]), Element(name, attrs, ch[p[0]..]))
      else
        var i := p[0];
        var r := SplitAt(ch[i], p[1..]);
        SplitChildTexts(ch, i, r.0, r.1, Off(ch[i], p[1..]));
        (Element(name, attrs, ch[..i] + [r.0]), Element(name, attrs, [r.1] + ch[i + 1..]))
  }

  /** Child `i` split at `k` into `a` and `b`: the children up to `a`, and from `b` on, hold
      the text of the whole list up to and from the split point. */
  lemma SplitChildTexts(ch: seq<Node>, i: nat, a: Node, b: Node, k: nat)
    requires i < |ch| && k <= |TextOf(ch[i])|
    requires TextOf(a) == TextOf(ch[i])[..k] && TextOf(b) == TextOf(ch[i])[k..]
    ensures |TextsOf(ch[..i])| + k <= |TextsOf(ch)|
    ensures TextsOf(ch[..i] + [a]) == TextsOf(ch)[..|TextsOf(ch[..i])| + k]
    ensures TextsOf([b] + ch[i + 1..]) == TextsOf(ch)[|TextsOf(ch[..i])| + k..]
  {
    TextsOfAround(ch, i);
    TextsOfAppend(ch[..i], [a]);
    TextsOfAppend([b], ch[i + 1..]);
    TextsOfSingle(a);
    TextsOfSingle(b);
    CutInMiddle(TextsOf(ch[..i]), TextOf(ch[i]), TextsOf(ch[i + 1..]), k);
  }

  /** Cutting `l + m + r` at `k` characters into `m`. */
  lemma CutInMiddle(l: string, m: string, r: string, k: nat)
    requires k <= |m|
    ensures (l + m + r)[..|l| + k] == l + m[..k]
    ensures (l + m + r)[|l| + k..] == m[k..] + r
    ensures (l + m + r)[|l|..|l| + k] == m[..k]
    ensures (l + m + r)[|l| + k..|l| + |m|] == m[k..]
  {
  }

  /** The two pieces of child `i`, split at `k`, each on its own. */
  lemma SplitChildPieces(ch: seq<Node>, i: nat, a: Node, b: Node, k: nat)
    requires i < |ch| && k <= |TextOf(ch[i])|
    requires TextOf(a) == TextOf(ch[i])[..k] && TextOf(b) == TextOf(ch[i])[k..]
    ensures |TextsOf(ch[..i + 1])| == |TextsOf(ch[..i])| + |TextOf(ch[i])| <= |TextsOf(ch)|
    ensures TextsOf([a]) == TextsOf(ch)[|TextsOf(ch[..i])|..|TextsOf(ch[..i])| + k]
    ensures TextsOf([b]) == TextsOf(ch)[|TextsOf(ch[..i])| + k..|TextsOf(ch[..i + 1])|]
  {
    TextsOfAround(ch, i);
    assert ch[..i + 1] == ch[..i] + [ch[i]];
    TextsOfAppend(ch[..i], [ch[i]]);
    TextsOfSingle(ch[i]);
    TextsOfSingle(a);
    TextsOfSingle(b);
    CutInMiddle(TextsOf(ch[..i]), TextOf(ch[i]), TextsOf(ch[i + 1..]), k);
  }

  // ---------------------------------------------------------------------------------------
  // Ranges and the extract algorithm
  // ---------------------------------------------------------------------------------------

  /** A range whose boundary points `sp` and `ep` lie inside `c` and whose common ancestor
      container is `c` itself: the two points do not both lie inside the same child, and the
      start does not come after the end. */
  predicate RangeIn(c: Node, sp: seq<nat>, ep: seq<nat>) {
    ValidPos(c, sp) && ValidPos(c, ep) &&
    if |sp| == 1 then sp[0] <= ep[0] else sp[0] < ep[0]
  }

  /** The text of a run of children, located inside the text of the whole child list. */
  lemma TextsOfSlice(ch: seq<Node>, lo: nat, hi: nat)
    requires lo <= hi <= |ch|
    ensures |TextsOf(ch[..lo])| <= |TextsOf(ch[..hi])| <= |TextsOf(ch)|
    ensures TextsOf(ch[..lo]) == TextsOf(ch)[..|TextsOf(ch[..lo])|]
    ensures TextsOf(ch[lo..hi]) == TextsOf(ch)[|TextsOf(ch[..lo])|..|TextsOf(ch[..hi])|]
  {
    TextsOfSplit(ch[..hi], lo);
    assert ch[..hi][..lo] == ch[..lo] && ch[..hi][lo..] == ch[lo..hi];
    TextsOfSplit(ch, hi);
  }

  /** The first child an extraction starting at `sp` takes whole. */
  function FirstWhole(sp: seq<nat>): nat
    requires |sp| > 0
  {
    if |sp| == 1 then sp[0] else sp[0] + 1
  }

  /** What an extraction starting at `sp` does to the child holding the start: the children
      that stay before the extraction point and the clone that opens the fragment. */
  function ExtractStart(c: Node, sp: seq<nat>): (r: (seq<Node>, seq<Node>))
    requires c.Element? && ValidPos(c, sp)
    ensures FirstWhole(sp) <= |c.children|
    ensures Off(c, sp) <= |TextsOf(c.children[..FirstWhole(sp)])| <= |TextOf(c)|
    ensures TextsOf(r.0) == TextOf(c)[..Off(c, sp)]
    ensures TextsOf(r.1) == TextOf(c)[Off(c, sp)..|TextsOf(c.children[..FirstWhole(sp)])|]
    ensures sp[0] <= |r.0| && r.0[..sp[0]] == c.children[..sp[0]]
  {
    var ch := c.children;
    var i := sp[0];
    TextsOfSlice(ch, i, FirstWhole(sp));
    if |sp| == 1 then
      (ch[..i], [])
    else
      var s := SplitAt(ch[i], sp[1..]);
      ExtractStartInChild(c, sp, s.0, s.1);
      (ch[..i] + [s.0], [s.1])
  }

  /** An extraction that starts inside child `sp[0]`: the first part of that child ends the
      children that stay, and the second part opens the fragment. */
  lemma ExtractStartInChild(c: Node, sp: seq<nat>, a: Node, b: Node)
    requires c.Element? && ValidPos(c, sp) && |sp| > 1
    requires (a, b) == SplitAt(c.children[sp[0]], sp[1..])
    ensures Off(c, sp) <= |TextsOf(c.children[..sp[0] + 1])| <= |TextOf(c)|
    ensures TextsOf(c.children[..sp[0]] + [a]) == TextOf(c)[..Off(c, sp)]
    ensures TextsOf([b]) == TextOf(c)[Off(c, sp)..|TextsOf(c.children[..sp[0] + 1])|]
  {
    var ch, i := c.children, sp[0];
    SplitChildTexts(ch, i, a, b, Off(ch[i], sp[1..]));
    SplitChildPieces(ch, i, a, b, Off(ch[i], sp[1..]));
  }

  /** What an extraction ending at `ep` does to the child holding the end: the clone that
      closes the fragment and the children that stay after the extraction point. */
  function ExtractEnd(c: Node, ep: seq<nat>): (r: (seq<Node>, seq<Node>))
    requires c.Element? && ValidPos(c, ep)
    ensures ep[0] <= |c.children|
    ensures |TextsOf(c.children[..ep[0]])| <= Off(c, ep)
    ensures TextsOf(r.0) == TextOf(c)[|TextsOf(c.children[..ep[0]])|..Off(c, ep)]
    ensures TextsOf(r.1) == TextOf(c)[Off(c, ep)..]
    ensures ep[0] < |c.children| ==>
      |c.children| - ep[0] - 1 <= |r.1| && r.1[|r.1| - (|c.children| - ep[0] - 1)..] == c.children[ep[0] + 1..]
  {
    var ch := c.children;
    var j := ep[0];
    if |ep| == 1 then
      TextsOfSplit(ch, j);
      ([], ch[j..])
    else
      var s := SplitAt(ch[j], ep[1..]);
      ExtractEndInChild(c, ep, s.0, s.1);
      ([s.0], [s.1] + ch[j + 1..])
  }

  /** An extraction that ends inside child `ep[0]`: the first part of that child closes the
      fragment, and the second part leads the children that stay. */
  lemma ExtractEndInChild(c: Node, ep: seq<nat>, a: Node, b: Node)
    requires c.Element? && ValidPos(c, ep) && |ep| > 1
    requires (a, b) == SplitAt(c.children[ep[0]], ep[1..])
    ensures |TextsOf(c.children[..ep[0]])| <= Off(c, ep)
    ensures TextsOf([a]) == TextOf(c)[|TextsOf(c.children[..ep[0]])|..Off(c, ep)]
    ensures TextsOf([b] + c.children[ep[0] + 1..]) == TextOf(c)[Off(c, ep)..]
  {
    var ch, j := c.children, ep[0];
    SplitChildTexts(ch, j, a, b, Off(ch[j], ep[1..]));
    SplitChildPieces(ch, j, a, b, Off(ch[j], ep[1..]));
  }

  /** The children of `c` once the range is extracted, and the extracted fragment. */
  datatype Extraction = Extraction(before: seq<Node>, fragment: seq<Node>, after: seq<Node>)

  /** The DOM standard's extract on an element container: the start and end children are split
      (Text data cut, elements cloned), the children strictly between them move to the
      fragment whole, and the new boundary is the gap between `before` and `after`. */
  function Extract(c: Node, sp: seq<nat>, ep: seq<nat>): (r: Extraction)
    requires c.Element? && RangeIn(c, sp, ep)
    ensures Off(c, sp) <= Off(c, ep)
    ensures TextsOf(r.before) == TextOf(c)[..Off(c, sp)]
    ensures TextsOf(r.fragment) == TextOf(c)[Off(c, sp)..Off(c, ep)]
    ensures TextsOf(r.after) == TextOf(c)[Off(c, ep)..]
    ensures sp[0] <= |r.before| && r.before[..sp[0]] == c.children[..sp[0]]
    ensures ep[0] < |c.children| ==>
      |c.children| - ep[0] - 1 <= |r.after|
      && r.after[|r.after| - (|c.children| - ep[0] - 1)..] == c.children[ep[0] + 1..]
  {
    var ch := c.children;
    var start := ExtractStart(c, sp);
    var end := ExtractEnd(c, ep);
    var lo, hi := FirstWhole(sp), ep[0];
    TextsOfSlice(ch, lo, hi);
    var t, a, b := TextOf(c), |TextsOf(ch[..lo])|, |TextsOf(ch[..hi])|;
    TextsOfAppend(start.1, ch[lo..hi]);
    TextsOfAppend(start.1 + ch[lo..hi], end.0);
    SliceJoin(t, Off(c, sp), a, b);
    SliceJoin(t, Off(c, sp), b, Off(c, ep));
    Extraction(start.0, start.1 + ch[lo..hi] + end.0, end.1)
  }

  lemma SliceJoin(s: string, i: nat, j: nat, k: nat)
    requires i <= j <= k <= |s|
    ensures s[i..j] + s[j..k] == s[i..k]
  {
  }

  /** The start of a range never comes after its end in the container's text. */
  lemma RangeOrdered(c: Node, sp: seq<nat>, ep: seq<nat>)
    requires RangeIn(c, sp, ep)
    ensures Off(c, sp) <= Off(c, ep)
  {
    if c.Element? {
      var e := Extract(c, sp, ep);
    }
  }

  /** Whether the range partially contains an element, which makes `surroundContents` throw:
      a boundary point lies below a child of `c` that is not a Text node. */
  predicate PartialElement(c: Node, sp: seq<nat>, ep: seq<nat>)
    requires c.Element? && RangeIn(c, sp, ep)
  {
    (|sp| > 1 && c.children[sp[0]].Element?) || (|ep| > 1 && c.children[ep[0]].Element?)
  }

  // ---------------------------------------------------------------------------------------
  // Unwrapping an element
  // ---------------------------------------------------------------------------------------

  /** A child list after its element at index `i` has handed its children, in order, to the
      list in its own place. */
  function Unwrap(ch: seq<Node>, i: nat): seq<Node>
    requires i < |ch| && ch[i].Element?
  {
    ch[..i] + ch[i].children + ch[i + 1..]
  }

  lemma UnwrapKeepsText(ch: seq<Node>, i: nat)
    requires i < |ch| && ch[i].Element?
    ensures TextsOf(Unwrap(ch, i)) == TextsOf(ch)
  {
    TextsOfAround(ch, i);
    TextsOfAppend(ch[..i], ch[i].children);
    TextsOfAppend(ch[..i] + ch[i].children, ch[i + 1..]);
  }

  // ---------------------------------------------------------------------------------------
  // Serialisation (`outerHTML`)
  // ---------------------------------------------------------------------------------------

  /** Elements serialised without children or end tag. */
  const VoidElements: set<string> :=
    {"area", "base", "basefont", "bgsound", "br", "col", "embed", "frame", "hr", "img", "input", "keygen",
     "link", "meta", "param", "source", "track", "wbr"}

  /** Elements whose Text children are serialised without escaping (scripting is enabled in the
      preview frame, so `noscript` is one of them). */
  const RawTextElements: set<string> :=
    {"style", "script", "xmp", "iframe", "noembed", "noframes", "plaintext", "noscript"}

  function EscapeChar(ch: char, inAttr: bool): string {
    if ch == '&' then "&amp;"
    else if ch == '\U{00A0}' then "&nbsp;"
    else if inAttr && ch == '"' then "&quot;"
    else if ch == '<' then "&lt;"
    else if ch == '>' then "&gt;"
    else [ch]
  }

  /** The HTML serialiser's escaping of text (`inAttr` false) or of an attribute value. */
  function Escape(s: string, inAttr: bool): (r: string)
    ensures '<' !in r && '>' !in r
  {
    if s == [] then [] else EscapeChar(s[0], inAttr) + Escape(s[1..], inAttr)
  }

  lemma {:induction false} EscapeAppend(a: string, b: string, inAttr: bool)
    ensures Escape(a + b, inAttr) == Escape(a, inAttr) + Escape(b, inAttr)
    decreases |a|
  {
    if a == [] {
      assert a + b == b;
    } else {
      assert (a + b)[0] == a[0] && (a + b)[1..] == a[1..] + b;
      EscapeAppend(a[1..], b, inAttr);
    }
  }

  function SerializeAttrs(attrs: seq<Attr>): string {
    if attrs == [] then []
    else " " + attrs[0].name + "=\"" + Escape(attrs[0].value, true) + "\"" + SerializeAttrs(attrs[1..])
  }

  /** A node serialised as the child of an element named `parent`. */
  function Serialize(n: Node, parent: string): string
    decreases n
  {
    match n
    case Text(d) => if parent in RawTextElements then d else Escape(d, false)
    case Element(name, attrs, ch) =>
      "<" + name + SerializeAttrs(attrs) + ">"
      + (if name in VoidElements then "" else SerializeAll(ch, name) + "</" + name + ">")
  }

  function SerializeAll(ns: seq<Node>, parent: string): string
    decreases ns
  {
    if ns == [] then [] else Serialize(ns[0], parent) + SerializeAll(ns[1..], parent)
  }

  /** `outerHTML` of an element. */
  function OuterHtml(n: Node): string {
    Serialize(n, "")
  }

  lemma {:induction false} SerializeAllAppend(a: seq<Node>, b: seq<Node>, parent: string)
    ensures SerializeAll(a + b, parent) == SerializeAll(a, parent) + SerializeAll(b, parent)
    decreases |a|
  {
    if a == [] {
      assert a + b == b;
    } else {
      assert (a + b)[0] == a[0] && (a + b)[1..] == a[1..] + b;
      SerializeAllAppend(a[1..], b, parent);
    }
  }

  /** Adjacent Text nodes serialise exactly as one Text node holding their joined data. */
  lemma AdjacentTextsSerializeAsOne(x: string, y: string, parent: string)
    ensures SerializeAll([Text(x), Text(y)], parent) == SerializeAll([Text(x + y)], parent)
  {
    assert [Text(x), Text(y)][1..] == [Text(y)];
    assert [Text(y)][1..] == [];
    assert [Text(x + y)][1..] == [];
    assert SerializeAll([Text(y)], parent) == Serialize(Text(y), parent);
    assert SerializeAll([Text(x + y)], parent) == Serialize(Text(x + y), parent);
    EscapeAppend(x, y, false);
  }

  lemma SerializeAllAround(ns: seq<Node>, i: nat, parent: string)
    requires i < |ns|
    ensures SerializeAll(ns, parent)
            == SerializeAll(ns[..i], parent) + Serialize(ns[i], parent) + SerializeAll(ns[i + 1..], parent)
  {
    assert ns == ns[..i] + ns[i..];
    SerializeAllAppend(ns[..i], ns[i..], parent);
    assert ns[i..][0] == ns[i] && ns[i..][1..] == ns[i + 1..];
  }

  /** Two nodes that serialise alike wherever they stand. */
  ghost predicate SameMarkup(a: Node, b: Node) {
    forall parent :: Serialize(a, parent) == Serialize(b, parent)
  }

  /** Replacing a node by one with the same markup leaves the markup of the whole tree unchanged. */
  lemma {:induction false} ReplaceAtKeepsMarkup(n: Node, p: seq<nat>, m: Node)
    requires NodeAt(n, p).Some? && SameMarkup(m, NodeAt(n, p).value)
    ensures SameMarkup(ReplaceAt(n, p, m), n)
    decreases p
  {
    if p != [] {
      var i := p[0];
      var ch := n.children;
      var x := ReplaceAt(ch[i], p[1..], m);
      ReplaceAtKeepsMarkup(ch[i], p[1..], m);
      forall parent ensures Serialize(ReplaceAt(n, p, m), parent) == Serialize(n, parent) {
        SerializeAllAround(ch, i, n.name);
        SerializeAllAround(ch[i := x], i, n.name);
        assert ch[i := x][..i] == ch[..i] && ch[i := x][i + 1..] == ch[i + 1..];
        assert Serialize(x, n.name) == Serialize(ch[i], n.name);
      }
    }
  }

  /** A Text node split in three serialises exactly as the unsplit one. */
  lemma SplitTextSerializesAsOne(d: string, a: nat, b: nat, parent: string)
    requires a <= b <= |d|
    ensures SerializeAll([Text(d[..a]), Text(d[a..b]), Text(d[b..])], parent) == SerializeAll([Text(d)], parent)
  {
    var t1, t2, t3 := Text(d[..a]), Text(d[a..b]), Text(d[b..]);
    assert [t1, t2, t3] == [t1, t2] + [t3];
    SerializeAllAppend([t1, t2], [t3], parent);
    AdjacentTextsSerializeAsOne(d[..a], d[a..b], parent);
    assert d[..a] + d[a..b] == d[..b];
    SerializeAllAppend([Text(d[..b])], [t3], parent);
    assert [Text(d[..b])] + [t3] == [Text(d[..b]), t3];
    AdjacentTextsSerializeAsOne(d[..b], d[b..], parent);
    assert d[..b] + d[b..] == d;
  }

  /** An element whose Text child is split in three has the same markup as before. */
  lemma SplitChildSameMarkup(e: Node, i: nat, a: nat, b: nat)
    requires e.Element? && i < |e.children| && e.children[i].Text?
    requires a <= b <= |e.children[i].data|
    ensures var ch, d := e.children, e.children[i].data;
      SameMarkup(e.(children := ch[..i] + [Text(d[..a]), Text(d[a..b]), Text(d[b..])] + ch[i + 1..]), e)
  {
    var ch, d := e.children, e.children[i].data;
    var three := [Text(d[..a]), Text(d[a..b]), Text(d[b..])];
    var uch := ch[..i] + three + ch[i + 1..];
    forall q ensures Serialize(e.(children := uch), q) == Serialize(e, q) {
      SplitTextSerializesAsOne(d, a, b, e.name);
      SerializeAllAppend(ch[..i], three, e.name);
      SerializeAllAppend(ch[..i] + three, ch[i + 1..], e.name);
      SerializeAllAround(ch, i, e.name);
      assert SerializeAll([Text(d)], e.name) == Serialize(ch[i], e.name) by {
        assert [Text(d)][1..] == [];
      }
    }
  }
}
