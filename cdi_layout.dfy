/**
 * Address layout of OpenLCB Configuration Description Information (CDI):
 * the segment / group / data-element tree of the XML document and the
 * rules that give each data element its offset within its parent and its
 * size, with repeated groups multiplied by their replication count
 * (OpenLCB Configuration Description Information Standard, S-9.7.4.1).
 *
 * The XML tree is a datatype whose attributes carry their raw text and the
 * number that text parses to. The user pointer each node carries is the
 * `user` field, None standing for a null pointer. `LaySeq` is the layout
 * stated recursively; `LayoutSegment` is the source's iterative walk,
 * proved to compute it.
 */
module CdiLayout {
  import opened Wrappers

  /** An attribute value: its text, and the number that text parses to. */
  datatype Attr = Attr(raw: string, number: int)

  /** The layout record a data element carries in its user pointer. */
  datatype NodeInfo = NodeInfo(offsetFromParent: int, size: int)

  datatype XmlNode = XmlNode(
    tag: string,
    text: Option<string>,
    attributes: map<string, Attr>,
    children: seq<XmlNode>,
    user: Option<NodeInfo>)

  // ---------------------------------------------------------------------
  // Child lookup
  // ---------------------------------------------------------------------

  /** The first node of `cs` with the tag, if any. */
  function FindIn(cs: seq<XmlNode>, tag: string): Option<XmlNode>
  {
    if cs == [] then None
    else if cs[0].tag == tag then Some(cs[0])
    else FindIn(cs[1..], tag)
  }

  /** `find_child_or_null`: the first child with the tag, or None. */
  function FindChild(parent: XmlNode, tag: string): Option<XmlNode>
  {
    FindIn(parent.children, tag)
  }

  /**
   * The lookup finds nothing exactly when no child has the tag; otherwise
   * it finds the child of lowest index with the tag.
   */
  lemma {:induction false} FindInFirst(cs: seq<XmlNode>, tag: string)
    ensures FindIn(cs, tag).None? <==> forall k :: 0 <= k < |cs| ==> cs[k].tag != tag
    ensures FindIn(cs, tag).Some? ==>
              exists k :: 0 <= k < |cs| && cs[k] == FindIn(cs, tag).value && cs[k].tag == tag &&
                          forall j :: 0 <= j < k ==> cs[j].tag != tag
  {
    if cs != [] && cs[0].tag != tag {
      FindInFirst(cs[1..], tag);
      if FindIn(cs, tag).Some? {
        var k :| 0 <= k < |cs[1..]| && cs[1..][k] == FindIn(cs, tag).value && cs[1..][k].tag == tag &&
                 forall j :: 0 <= j < k ==> cs[1..][j].tag != tag;
        assert cs[k + 1] == cs[1..][k];
        assert forall j :: 0 < j < k + 1 ==> cs[j] == cs[1..][j - 1];
      } else {
        assert forall k :: 1 <= k < |cs| ==> cs[k] == cs[1..][k - 1];
      }
    }
  }

  lemma FindChildFirst(parent: XmlNode, tag: string)
    ensures FindChild(parent, tag).None? <==> forall k :: 0 <= k < |parent.children| ==> parent.children[k].tag != tag
    ensures FindChild(parent, tag).Some? ==>
              exists k :: 0 <= k < |parent.children| && parent.children[k] == FindChild(parent, tag).value &&
                          parent.children[k].tag == tag &&
                          forall j :: 0 <= j < k ==> parent.children[j].tag != tag
  {
    FindInFirst(parent.children, tag);
  }

  /** `find_child_or_null`, as the source's indexed search loop. */
  method FindChildOrNull(parent: XmlNode, tag: string) returns (r: Option<XmlNode>)
    ensures r == FindChild(parent, tag)
  {
    var cs := parent.children;
    for i := 0 to |cs|
      invariant FindIn(cs[i..], tag) == FindIn(cs, tag)
    {
      if cs[i].tag == tag {
        return Some(cs[i]);
      }
      assert cs[i..][1..] == cs[i + 1..];
    }
    assert cs[|cs|..] == [];
    return None;
  }

  /** `find_node_name`: the text of the first `name` child, or `def` when there is none or it has no text. */
  function FindNodeName(node: XmlNode, def: string): (r: string)
    ensures (forall k :: 0 <= k < |node.children| ==> node.children[k].tag != "name") ==> r == def
    ensures FindChild(node, "name").Some? && FindChild(node, "name").value.text.None? ==> r == def
    ensures FindChild(node, "name").Some? && FindChild(node, "name").value.text.Some? ==>
              r == FindChild(node, "name").value.text.value
  {
    FindChildFirst(node, "name");
    var n := FindChild(node, "name");
    if n.None? || n.value.text.None? then def else n.value.text.value
  }

  /** `find_node_description`: the text of the first `description` child, or the empty string. */
  function FindNodeDescription(node: XmlNode): (r: string)
    ensures (forall k :: 0 <= k < |node.children| ==> node.children[k].tag != "description") ==> r == ""
    ensures FindChild(node, "description").Some? && FindChild(node, "description").value.text.None? ==> r == ""
    ensures FindChild(node, "description").Some? && FindChild(node, "description").value.text.Some? ==>
              r == FindChild(node, "description").value.text.value
  {
    FindChildFirst(node, "description");
    var n := FindChild(node, "description");
    if n.None? || n.value.text.None? then "" else n.value.text.value
  }

  // ---------------------------------------------------------------------
  // Attributes
  // ---------------------------------------------------------------------

  /** `get_numeric_attribute`: the attribute's number, or `def` when it is missing or empty. */
  function NumericAttribute(node: XmlNode, name: string, def: int): (r: int)
    ensures name !in node.attributes ==> r == def
    ensures name in node.attributes && node.attributes[name].raw == "" ==> r == def
    ensures name in node.attributes && node.attributes[name].raw != "" ==> r == node.attributes[name].number
  {
    if name !in node.attributes || node.attributes[name].raw == "" then def
    else node.attributes[name].number
  }

  /** `get_replication`: the replication count of a group, 1 when not repeated. */
  function GetReplication(group: XmlNode): (r: int)
    requires group.tag == "group"
    ensures "replication" !in group.attributes ==> r == 1
    ensures r == NumericAttribute(group, "replication", 1)
  {
    NumericAttribute(group, "replication", 1)
  }

  // ---------------------------------------------------------------------
  // prepare_doc
  // ---------------------------------------------------------------------

  /** No node of the tree carries a user pointer. */
  predicate NoUserInfo(n: XmlNode)
  {
    n.user.None? && NoUserInfoSeq(n.children)
  }

  predicate NoUserInfoSeq(cs: seq<XmlNode>)
    decreases cs
  {
    cs == [] || (NoUserInfo(cs[0]) && NoUserInfoSeq(cs[1..]))
  }

  /** The tree with every user pointer cleared. */
  function ClearUserInfo(n: XmlNode): XmlNode
  {
    n.(user := None, children := ClearUserInfoSeq(n.children))
  }

  function ClearUserInfoSeq(cs: seq<XmlNode>): (r: seq<XmlNode>)
    ensures |r| == |cs|
    decreases cs
  {
    if cs == [] then [] else [ClearUserInfo(cs[0])] + ClearUserInfoSeq(cs[1..])
  }

  /** Two trees that differ at most in their user pointers. */
  predicate SameDocument(a: XmlNode, b: XmlNode)
  {
    a.tag == b.tag && a.text == b.text && a.attributes == b.attributes && SameDocumentSeq(a.children, b.children)
  }

  predicate SameDocumentSeq(a: seq<XmlNode>, b: seq<XmlNode>)
    decreases a
  {
    |a| == |b| && (a == [] || (SameDocument(a[0], b[0]) && SameDocumentSeq(a[1..], b[1..])))
  }

  /** Clearing leaves no user pointer, changes nothing else, and leaves a cleared tree as it is. */
  lemma {:induction false} ClearUserInfoClears(n: XmlNode)
    ensures NoUserInfo(ClearUserInfo(n))
    ensures SameDocument(ClearUserInfo(n), n)
    ensures NoUserInfo(n) ==> ClearUserInfo(n) == n
    decreases n, 1
  {
    ClearUserInfoSeqClears(n.children);
  }

  lemma {:induction false} ClearUserInfoSeqClears(cs: seq<XmlNode>)
    ensures NoUserInfoSeq(ClearUserInfoSeq(cs))
    ensures SameDocumentSeq(ClearUserInfoSeq(cs), cs)
    ensures NoUserInfoSeq(cs) ==> ClearUserInfoSeq(cs) == cs
    decreases cs, 0
  {
    if cs != [] {
      ClearUserInfoClears(cs[0]);
      ClearUserInfoSeqClears(cs[1..]);
      var r := ClearUserInfoSeq(cs);
      assert r[0] == ClearUserInfo(cs[0]) && r[1..] == ClearUserInfoSeq(cs[1..]);
      if NoUserInfoSeq(cs) {
        assert cs == [cs[0]] + cs[1..];
      }
    }
  }

  /**
   * A node on the document walk's path: the node, its children not yet
   * visited, and those visited, already cleared.
   */
  datatype ClearFrame = ClearFrame(node: XmlNode, rest: seq<XmlNode>, done: seq<XmlNode>)

  /** What the walk still has to do, applied to the frames. */
  function ClearFinish(stack: seq<ClearFrame>): XmlNode
    requires |stack| >= 1
    decreases |stack|
  {
    var f := stack[|stack| - 1];
    var n := f.node.(user := None, children := f.done + ClearUserInfoSeq(f.rest));
    if |stack| == 1 then n
    else
      var p := stack[|stack| - 2];
      ClearFinish(stack[..|stack| - 2] + [p.(done := p.done + [n])])
  }

  function ClearWork(stack: seq<ClearFrame>): nat
    decreases |stack|
  {
    if stack == [] then 0
    else ClearWork(stack[..|stack| - 1]) + 2 * SizeSeq(stack[|stack| - 1].rest) + 1
  }

  lemma {:induction false} ClearWorkSnoc(stack: seq<ClearFrame>, f: ClearFrame)
    ensures ClearWork(stack + [f]) == ClearWork(stack) + 2 * SizeSeq(f.rest) + 1
  {
    assert (stack + [f])[..|stack|] == stack;
  }

  /** Replacing the top frame by one that completes the same way leaves the result alone. */
  lemma {:induction false} ClearFinishTop(stack: seq<ClearFrame>, f: ClearFrame)
    requires |stack| >= 1
    requires var t := stack[|stack| - 1]; f.node == t.node && f.done + ClearUserInfoSeq(f.rest) == t.done + ClearUserInfoSeq(t.rest)
    ensures ClearFinish(stack[..|stack| - 1] + [f]) == ClearFinish(stack)
  {
    var s2 := stack[..|stack| - 1] + [f];
    if |stack| >= 2 {
      assert s2[..|s2| - 2] == stack[..|stack| - 2];
      assert s2[|s2| - 2] == stack[|stack| - 2];
    }
  }

  lemma SizeSeqCons(cs: seq<XmlNode>)
    requires cs != []
    ensures SizeSeq(cs) == 1 + SizeSeq(cs[0].children) + SizeSeq(cs[1..])
    ensures ClearUserInfoSeq(cs) == [ClearUserInfo(cs[0])] + ClearUserInfoSeq(cs[1..])
  {
  }

  /** Going down into the next child. */
  lemma {:induction false} ClearStepDown(stack: seq<ClearFrame>)
    requires |stack| >= 1 && stack[|stack| - 1].rest != []
    ensures var t := stack[|stack| - 1]; var c := t.rest[0];
      var s2 := stack[..|stack| - 1] + [t.(rest := t.rest[1..]), ClearFrame(c, c.children, [])];
      ClearFinish(s2) == ClearFinish(stack) && ClearWork(s2) < ClearWork(stack)
  {
    var t := stack[|stack| - 1];
    var c := t.rest[0];
    var t1 := t.(rest := t.rest[1..]);
    var s1 := stack[..|stack| - 1] + [t1];
    var s2 := s1 + [ClearFrame(c, c.children, [])];
    assert s2 == stack[..|stack| - 1] + [t1, ClearFrame(c, c.children, [])];
    SizeSeqCons(t.rest);
    assert s2[..|s2| - 2] == stack[..|stack| - 1];
    assert s2[|s2| - 2] == t1;
    var n := c.(user := None, children := [] + ClearUserInfoSeq(c.children));
    assert n == ClearUserInfo(c);
    var t2 := t1.(done := t1.done + [n]);
    assert ClearFinish(s2) == ClearFinish(stack[..|stack| - 1] + [t2]);
    assert t2.done + ClearUserInfoSeq(t2.rest) == t.done + ClearUserInfoSeq(t.rest);
    ClearFinishTop(stack, t2);
    assert stack == stack[..|stack| - 1] + [t];
    ClearWorkSnoc(stack[..|stack| - 1], t);
    ClearWorkSnoc(stack[..|stack| - 1], t1);
    ClearWorkSnoc(s1, ClearFrame(c, c.children, []));
  }

  /** Going up from a node whose children are all visited. */
  lemma {:induction false} ClearStepUp(stack: seq<ClearFrame>)
    requires |stack| > 1 && stack[|stack| - 1].rest == []
    ensures var f := stack[|stack| - 1]; var p := stack[|stack| - 2];
      var s2 := stack[..|stack| - 2] + [p.(done := p.done + [f.node.(user := None, children := f.done)])];
      ClearFinish(s2) == ClearFinish(stack) && ClearWork(s2) < ClearWork(stack)
  {
    var f := stack[|stack| - 1];
    var p := stack[|stack| - 2];
    var p2 := p.(done := p.done + [f.node.(user := None, children := f.done)]);
    assert f.done + ClearUserInfoSeq(f.rest) == f.done;
    assert stack == stack[..|stack| - 2] + [p] + [f];
    ClearWorkSnoc(stack[..|stack| - 2], p);
    ClearWorkSnoc(stack[..|stack| - 2] + [p], f);
    ClearWorkSnoc(stack[..|stack| - 2], p2);
  }

  /**
   * `prepare_doc`: the source visits every node in document order and
   * clears its user pointer. The walk keeps its path from the root as a
   * stack of frames and rebuilds each node once all its children are done.
   */
  method PrepareDoc(root: XmlNode) returns (r: XmlNode)
    ensures r == ClearUserInfo(root)
  {
    if root.children == [] {
      return root.(user := None);
    }
    var stack := [ClearFrame(root, root.children, [])];
    while true
      invariant |stack| >= 1 && stack[|stack| - 1].rest != []
      invariant ClearFinish(stack) == ClearUserInfo(root)
      decreases ClearWork(stack)
    {
      ghost var before := stack;
      var top := stack[|stack| - 1];
      var child := top.rest[0];
      // Go down to the next node in document order.
      ClearStepDown(stack);
      stack := stack[..|stack| - 1] + [top.(rest := top.rest[1..]), ClearFrame(child, child.children, [])];
      // Go up while the current node has no more children.
      while stack[|stack| - 1].rest == [] && |stack| > 1
        invariant |stack| >= 1
        invariant ClearFinish(stack) == ClearUserInfo(root)
        invariant ClearWork(stack) < ClearWork(before)
        decreases |stack|
      {
        var f := stack[|stack| - 1];
        var p := stack[|stack| - 2];
        ClearStepUp(stack);
        stack := stack[..|stack| - 2] + [p.(done := p.done + [f.node.(user := None, children := f.done)])];
      }
      if stack[|stack| - 1].rest == [] {
        break;
      }
    }
    var f := stack[0];
    assert f.done + ClearUserInfoSeq(f.rest) == f.done;
    return f.node.(user := None, children := f.done);
  }

  // ---------------------------------------------------------------------
  // layout_segment, stated recursively
  // ---------------------------------------------------------------------

  /** Children that describe their parent rather than hold data. */
  predicate IsMeta(tag: string)
  {
    tag == "name" || tag == "description" || tag == "repname"
  }

  /** A group whose children the walk descends into. */
  predicate IsGroupWithChildren(n: XmlNode)
  {
    n.tag == "group" && n.children != []
  }

  /** How many nodes a forest has; the walk's measure of remaining work. */
  function SizeSeq(cs: seq<XmlNode>): nat
    decreases cs
  {
    if cs == [] then 0 else 1 + SizeSeq(cs[0].children) + SizeSeq(cs[1..])
  }

  /**
   * The size of a data element that is not a group the walk descends into:
   * 8 for an event id, the `size` attribute (default 1) for a string, int
   * or float, and 0 for anything else, an empty group among them.
   */
  function LeafSize(n: XmlNode): (r: int)
    ensures n.tag == "eventid" ==> r == 8
    ensures n.tag == "string" || n.tag == "int" || n.tag == "float" ==> r == NumericAttribute(n, "size", 1)
    ensures n.tag == "group" ==> r == 0
  {
    if n.tag == "eventid" then 8
    else if n.tag == "string" || n.tag == "int" || n.tag == "float" then NumericAttribute(n, "size", 1)
    else 0
  }

  /** The laid-out children of a segment or group, and the running total after them. */
  datatype Laid = Laid(done: seq<XmlNode>, total: int)

  /**
   * Lays out the children `cs`, the running total being `acc` before the
   * first. A data element first adds its `offset` attribute to the total,
   * takes the total as its offset, and then adds its size; a group with
   * children is laid out inside (its running total starting at 0), and its
   * size is that total times its replication. Name, description and repname
   * children are passed over and keep no layout record.
   */
  function LaySeq(cs: seq<XmlNode>, acc: int): Laid
    decreases cs, 1
  {
    if cs == [] then Laid([], acc)
    else
      var rest := LaySeq(cs[1..], TotalAfter(cs[0], acc));
      Laid([LayHead(cs[0], acc)] + rest.done, rest.total)
  }

  /** The running total after child `c`, the running total being `acc` before it. */
  function TotalAfter(c: XmlNode, acc: int): int
    decreases c, 0
  {
    if IsMeta(c.tag) then acc
    else
      var offset := acc + NumericAttribute(c, "offset", 0);
      if IsGroupWithChildren(c) then offset + LaySeq(c.children, 0).total * NumericAttribute(c, "replication", 1)
      else offset + LeafSize(c)
  }

  /** Child `c` laid out, the running total being `acc` before it. */
  function LayHead(c: XmlNode, acc: int): XmlNode
    decreases c, 0
  {
    var offset := acc + NumericAttribute(c, "offset", 0);
    if IsMeta(c.tag) then c
    else if IsGroupWithChildren(c) then
      var inner := LaySeq(c.children, 0);
      c.(children := inner.done, user := Some(NodeInfo(offset, inner.total * NumericAttribute(c, "replication", 1))))
    else c.(user := Some(NodeInfo(offset, LeafSize(c))))
  }

  /**
   * The segment after `layout_segment`: its offset is its `origin` attribute
   * (default 0), its size the total of its children's layout, not multiplied.
   */
  function LaidOutSegment(segment: XmlNode): (r: XmlNode)
    ensures r.user == Some(NodeInfo(NumericAttribute(segment, "origin", 0), LaySeq(segment.children, 0).total))
    ensures r.tag == segment.tag && r.attributes == segment.attributes && r.text == segment.text
  {
    var laid := LaySeq(segment.children, 0);
    segment.(children := laid.done, user := Some(NodeInfo(NumericAttribute(segment, "origin", 0), laid.total)))
  }

  // ---------------------------------------------------------------------
  // Properties of the layout
  // ---------------------------------------------------------------------

  /**
   * The size of a data element, stated without the layout: a group with
   * children occupies the span of its children times its replication.
   */
  function ElementSize(c: XmlNode): int
    decreases c, 1
  {
    if IsGroupWithChildren(c) then Span(c.children) * NumericAttribute(c, "replication", 1)
    else LeafSize(c)
  }

  /**
   * What a child adds to its parent's running total: nothing for a name,
   * description or repname; its offset attribute plus its size otherwise.
   */
  function Contribution(c: XmlNode): int
    decreases c, 2
  {
    if IsMeta(c.tag) then 0 else NumericAttribute(c, "offset", 0) + ElementSize(c)
  }

  /** The bytes a sequence of siblings spans: the sum of their contributions. */
  function Span(cs: seq<XmlNode>): int
    decreases cs, 0
  {
    if cs == [] then 0 else Contribution(cs[0]) + Span(cs[1..])
  }

  lemma {:induction false} SpanAppend(a: seq<XmlNode>, b: seq<XmlNode>)
    ensures Span(a + b) == Span(a) + Span(b)
    decreases a
  {
    if a != [] {
      assert (a + b)[0] == a[0] && (a + b)[1..] == a[1..] + b;
      SpanAppend(a[1..], b);
    } else {
      assert a + b == b;
    }
  }

  /** The running total after the layout is the starting total plus the span, and every child is kept. */
  lemma {:induction false} LaySeqTotal(cs: seq<XmlNode>, acc: int)
    ensures LaySeq(cs, acc).total == acc + Span(cs)
    ensures |LaySeq(cs, acc).done| == |cs|
    decreases cs
  {
    if cs != [] {
      var c := cs[0];
      var offset := acc + NumericAttribute(c, "offset", 0);
      if IsMeta(c.tag) {
        LaySeqTotal(cs[1..], acc);
      } else if IsGroupWithChildren(c) {
        LaySeqTotal(c.children, 0);
        LaySeqTotal(cs[1..], offset + ElementSize(c));
      } else {
        LaySeqTotal(cs[1..], offset + LeafSize(c));
      }
    }
  }

  /**
   * `d` is the laid-out form of child `c`, the running total of its parent
   * being `before` when the walk reaches it: a name, description or
   * repname is left as it is; a data element records the running total
   * plus its offset attribute, and its size; a group with children has
   * those children laid out from 0.
   */
  predicate LaidChild(c: XmlNode, d: XmlNode, before: int)
  {
    && d.tag == c.tag && d.text == c.text && d.attributes == c.attributes
    && (IsMeta(c.tag) ==> d == c)
    && (!IsMeta(c.tag) ==> d.user == Some(NodeInfo(before + NumericAttribute(c, "offset", 0), ElementSize(c))))
    && (IsGroupWithChildren(c) ==> d.children == LaySeq(c.children, 0).done)
    && (!IsGroupWithChildren(c) ==> d.children == c.children)
  }

  lemma LaySeqCons(cs: seq<XmlNode>, acc: int)
    requires cs != []
    ensures LaySeq(cs, acc).done == [LayHead(cs[0], acc)] + LaySeq(cs[1..], acc + Contribution(cs[0])).done
    ensures LaySeq(cs, acc).total == LaySeq(cs[1..], acc + Contribution(cs[0])).total
  {
    if IsGroupWithChildren(cs[0]) {
      LaySeqTotal(cs[0].children, 0);
    }
  }

  lemma LayHeadLaid(c: XmlNode, acc: int)
    ensures LaidChild(c, LayHead(c, acc), acc)
  {
    if IsGroupWithChildren(c) {
      LaySeqTotal(c.children, 0);
    }
  }

  /**
   * Child k of a layout is laid out with the running total of its
   * preceding siblings: the starting total plus their span.
   */
  lemma {:induction false} LaySeqChild(cs: seq<XmlNode>, acc: int, k: nat)
    requires k < |cs|
    ensures |LaySeq(cs, acc).done| == |cs|
    ensures LaidChild(cs[k], LaySeq(cs, acc).done[k], acc + Span(cs[..k]))
    decreases k
  {
    LaySeqCons(cs, acc);
    if k == 0 {
      LaySeqTotal(cs, acc);
      assert cs[..0] == [];
      LayHeadLaid(cs[0], acc);
    } else {
      LaySeqChild(cs[1..], acc + Contribution(cs[0]), k - 1);
      SpanPrefixCons(cs, k);
      assert cs[1..][k - 1] == cs[k];
    }
  }

  /** The span of the first k siblings is the first one's contribution plus the span of the next k - 1. */
  lemma SpanPrefixCons(cs: seq<XmlNode>, k: nat)
    requires 0 < k <= |cs|
    ensures Span(cs[..k]) == Contribution(cs[0]) + Span(cs[1..][..k - 1])
  {
    assert cs[..k][0] == cs[0] && cs[..k][1..] == cs[1..][..k - 1];
  }

  /**
   * With non-negative attributes, the siblings before a later element k
   * span at least those before an earlier one j plus j's contribution.
   */
  lemma SpanPrefixGrows(cs: seq<XmlNode>, j: nat, k: nat)
    requires j < k <= |cs| && NonNegativeLayoutSeq(cs)
    ensures Span(cs[..k]) >= Span(cs[..j]) + Contribution(cs[j])
  {
    assert cs[..j + 1] == cs[..j] + [cs[j]];
    SpanAppend(cs[..j], [cs[j]]);
    assert [cs[j]][1..] == [];
    assert cs[..k] == cs[..j + 1] + cs[j + 1..k];
    SpanAppend(cs[..j + 1], cs[j + 1..k]);
    NonNegativeLayoutSlice(cs, j + 1, k);
    SpanNonNegative(cs[j + 1..k]);
  }

  lemma NonNegativeLayoutSlice(cs: seq<XmlNode>, lo: nat, hi: nat)
    requires lo <= hi <= |cs| && NonNegativeLayoutSeq(cs)
    ensures NonNegativeLayoutSeq(cs[lo..hi])
  {
    forall i | 0 <= i < hi - lo
      ensures NonNegativeLayout(cs[lo..hi][i])
    {
      assert cs[lo..hi][i] == cs[lo + i];
    }
  }

  /**
   * After `layout_segment` the segment's offset is its origin attribute,
   * its size the span of its children, and child k is laid out with the
   * span of the children before it as running total.
   */
  lemma LaidOutSegmentChild(segment: XmlNode, k: nat)
    requires k < |segment.children|
    ensures LaidOutSegment(segment).user == Some(NodeInfo(NumericAttribute(segment, "origin", 0), Span(segment.children)))
    ensures |LaidOutSegment(segment).children| == |segment.children|
    ensures LaidChild(segment.children[k], LaidOutSegment(segment).children[k], Span(segment.children[..k]))
  {
    LaySeqTotal(segment.children, 0);
    LaySeqChild(segment.children, 0, k);
  }

  /** A name, description or repname child changes no size, wherever it stands. */
  lemma MetaSpansNothing(a: seq<XmlNode>, m: XmlNode, b: seq<XmlNode>, acc: int)
    requires IsMeta(m.tag)
    ensures LaySeq(a + [m] + b, acc).total == LaySeq(a + b, acc).total
  {
    LaySeqTotal(a + [m] + b, acc);
    LaySeqTotal(a + b, acc);
    SpanAppend(a + [m], b);
    SpanAppend(a, [m]);
    SpanAppend(a, b);
    assert [m][1..] == [];
  }

  /** Every offset, size and replication attribute in the tree, explicit or defaulted, is non-negative. */
  predicate NonNegativeLayout(c: XmlNode)
    decreases c, 1
  {
    && NumericAttribute(c, "offset", 0) >= 0
    && NumericAttribute(c, "size", 1) >= 0
    && NumericAttribute(c, "replication", 1) >= 0
    && NonNegativeLayoutSeq(c.children)
  }

  predicate NonNegativeLayoutSeq(cs: seq<XmlNode>)
    decreases cs, 0
  {
    forall k :: 0 <= k < |cs| ==> NonNegativeLayout(cs[k])
  }

  lemma {:induction false} ContributionNonNegative(c: XmlNode)
    requires NonNegativeLayout(c)
    ensures ElementSize(c) >= 0 && Contribution(c) >= 0
    decreases c, 1
  {
    if IsGroupWithChildren(c) {
      SpanNonNegative(c.children);
    }
  }

  lemma {:induction false} SpanNonNegative(cs: seq<XmlNode>)
    requires NonNegativeLayoutSeq(cs)
    ensures Span(cs) >= 0
    decreases cs, 0
  {
    if cs != [] {
      assert NonNegativeLayout(cs[0]);
      ContributionNonNegative(cs[0]);
      NonNegativeLayoutSlice(cs, 1, |cs|);
      SpanNonNegative(cs[1..]);
    }
  }

  /**
   * With non-negative attributes, the data elements of a group occupy
   * disjoint address ranges, in document order: an element ends at or
   * before the offset of every later element.
   */
  lemma LaidOutDisjoint(cs: seq<XmlNode>, acc: int, j: nat, k: nat)
    requires j < k < |cs| && !IsMeta(cs[j].tag) && !IsMeta(cs[k].tag)
    requires NonNegativeLayoutSeq(cs)
    ensures |LaySeq(cs, acc).done| == |cs|
    ensures var dj := LaySeq(cs, acc).done[j].user; var dk := LaySeq(cs, acc).done[k].user;
      dj.Some? && dk.Some? && dj.value.offsetFromParent + dj.value.size <= dk.value.offsetFromParent
  {
    LaySeqChild(cs, acc, j);
    LaySeqChild(cs, acc, k);
    SpanPrefixGrows(cs, j, k);
    assert NonNegativeLayout(cs[k]);
  }

  // ---------------------------------------------------------------------
  // layout_segment, as the source's walk
  // ---------------------------------------------------------------------

  /**
   * A segment or group on the walk's path: the node, its children not yet
   * visited, those laid out so far, the running size (the node's `size`
   * field in the source) and the node's own offset.
   */
  datatype Frame = Frame(node: XmlNode, rest: seq<XmlNode>, done: seq<XmlNode>, size: int, offset: int)

  /** The frame's children once the rest of them are laid out, and its final running size. */
  function Complete(f: Frame): Laid
  {
    var r := LaySeq(f.rest, f.size);
    Laid(f.done + r.done, r.total)
  }

  /** What the walk still has to do, applied to the frames: the laid-out children and size of the segment. */
  function Finish(stack: seq<Frame>): Laid
    requires |stack| >= 1
    decreases |stack|
  {
    var f := stack[|stack| - 1];
    var c := Complete(f);
    if |stack| == 1 then c
    else
      var size := c.total * NumericAttribute(f.node, "replication", 1);
      var g := f.node.(children := c.done, user := Some(NodeInfo(f.offset, size)));
      var p := stack[|stack| - 2];
      Finish(stack[..|stack| - 2] + [p.(done := p.done + [g], size := p.size + size)])
  }

  function Work(stack: seq<Frame>): nat
    decreases |stack|
  {
    if stack == [] then 0
    else Work(stack[..|stack| - 1]) + 2 * SizeSeq(stack[|stack| - 1].rest) + 1
  }

  lemma {:induction false} WorkSnoc(stack: seq<Frame>, f: Frame)
    ensures Work(stack + [f]) == Work(stack) + 2 * SizeSeq(f.rest) + 1
  {
    assert (stack + [f])[..|stack|] == stack;
  }

  /** Replacing the top frame by one with the same node and the same completion leaves the result alone. */
  lemma {:induction false} FinishTop(stack: seq<Frame>, f: Frame)
    requires |stack| >= 1
    requires f.node == stack[|stack| - 1].node && f.offset == stack[|stack| - 1].offset
    requires Complete(f) == Complete(stack[|stack| - 1])
    ensures Finish(stack[..|stack| - 1] + [f]) == Finish(stack)
  {
    var s2 := stack[..|stack| - 1] + [f];
    if |stack| >= 2 {
      assert s2[..|s2| - 2] == stack[..|stack| - 2];
      assert s2[|s2| - 2] == stack[|stack| - 2];
    }
  }

  /** A step consuming the top frame's next child costs less work. */
  lemma {:induction false} StepWork(stack: seq<Frame>, t2: Frame)
    requires |stack| >= 1 && stack[|stack| - 1].rest != [] && t2.rest == stack[|stack| - 1].rest[1..]
    ensures Work(stack[..|stack| - 1] + [t2]) + 2 * SizeSeq(stack[|stack| - 1].rest[0].children) + 2 == Work(stack)
  {
    var t := stack[|stack| - 1];
    SizeSeqCons(t.rest);
    assert stack == stack[..|stack| - 1] + [t];
    WorkSnoc(stack[..|stack| - 1], t);
    WorkSnoc(stack[..|stack| - 1], t2);
  }

  /** Visiting a name, description or repname child. */
  lemma {:induction false} StepMeta(stack: seq<Frame>, s2: seq<Frame>)
    requires |stack| >= 1 && stack[|stack| - 1].rest != [] && IsMeta(stack[|stack| - 1].rest[0].tag)
    requires var t := stack[|stack| - 1];
      s2 == stack[..|stack| - 1] + [t.(done := t.done + [t.rest[0]], rest := t.rest[1..])]
    ensures Finish(s2) == Finish(stack) && Work(s2) < Work(stack)
  {
    var t := stack[|stack| - 1];
    var t2 := t.(done := t.done + [t.rest[0]], rest := t.rest[1..]);
    StepWork(stack, t2);
    var r := LaySeq(t2.rest, t.size);
    assert LaySeq(t.rest, t.size) == Laid([t.rest[0]] + r.done, r.total);
    assert t2.done + r.done == t.done + ([t.rest[0]] + r.done);
    FinishTop(stack, t2);
  }

  /** Visiting a data element the walk does not descend into. */
  lemma {:induction false} StepLeaf(stack: seq<Frame>, s2: seq<Frame>)
    requires |stack| >= 1 && stack[|stack| - 1].rest != []
    requires var c := stack[|stack| - 1].rest[0]; !IsMeta(c.tag) && !IsGroupWithChildren(c)
    requires var t := stack[|stack| - 1]; var c := t.rest[0];
      var offset := t.size + NumericAttribute(c, "offset", 0);
      s2 == stack[..|stack| - 1] +
            [t.(done := t.done + [c.(user := Some(NodeInfo(offset, LeafSize(c))))],
                size := offset + LeafSize(c), rest := t.rest[1..])]
    ensures Finish(s2) == Finish(stack) && Work(s2) < Work(stack)
  {
    var t := stack[|stack| - 1];
    var c := t.rest[0];
    var offset := t.size + NumericAttribute(c, "offset", 0);
    var c2 := c.(user := Some(NodeInfo(offset, LeafSize(c))));
    var t2 := t.(done := t.done + [c2], size := offset + LeafSize(c), rest := t.rest[1..]);
    StepWork(stack, t2);
    var r := LaySeq(t2.rest, offset + LeafSize(c));
    assert LaySeq(t.rest, t.size) == Laid([c2] + r.done, r.total);
    assert t2.done + r.done == t.done + ([c2] + r.done);
    FinishTop(stack, t2);
  }

  /** Descending into a group with children. */
  lemma {:induction false} StepDown(stack: seq<Frame>, s2: seq<Frame>)
    requires |stack| >= 1 && stack[|stack| - 1].rest != [] && IsGroupWithChildren(stack[|stack| - 1].rest[0])
    requires var t := stack[|stack| - 1]; var c := t.rest[0];
      var offset := t.size + NumericAttribute(c, "offset", 0);
      s2 == stack[..|stack| - 1] + [t.(size := offset, rest := t.rest[1..]), Frame(c, c.children, [], 0, offset)]
    ensures Finish(s2) == Finish(stack) && Work(s2) < Work(stack)
  {
    var t := stack[|stack| - 1];
    var c := t.rest[0];
    var offset := t.size + NumericAttribute(c, "offset", 0);
    var t1 := t.(size := offset, rest := t.rest[1..]);
    var s1 := stack[..|stack| - 1] + [t1];
    assert s2 == s1 + [Frame(c, c.children, [], 0, offset)];
    StepWork(stack, t1);
    WorkSnoc(s1, Frame(c, c.children, [], 0, offset));
    var inner := LaySeq(c.children, 0);
    assert Complete(Frame(c, c.children, [], 0, offset)) == inner;
    var size := inner.total * NumericAttribute(c, "replication", 1);
    var g := c.(children := inner.done, user := Some(NodeInfo(offset, size)));
    var t2 := t1.(done := t1.done + [g], size := offset + size);
    assert s2[..|s2| - 2] == stack[..|stack| - 1];
    assert s2[|s2| - 2] == t1;
    assert Finish(s2) == Finish(stack[..|stack| - 1] + [t2]);
    var r := LaySeq(t.rest[1..], offset + size);
    assert LaySeq(t.rest, t.size) == Laid([g] + r.done, r.total);
    assert t2.done + r.done == t.done + ([g] + r.done);
    FinishTop(stack, t2);
  }

  /** Going up from a group whose children are all visited. */
  lemma {:induction false} StepUp(stack: seq<Frame>, s2: seq<Frame>)
    requires |stack| > 1 && stack[|stack| - 1].rest == []
    requires var f := stack[|stack| - 1]; var p := stack[|stack| - 2];
      var size := f.size * NumericAttribute(f.node, "replication", 1);
      var g := f.node.(children := f.done, user := Some(NodeInfo(f.offset, size)));
      s2 == stack[..|stack| - 2] + [p.(done := p.done + [g], size := p.size + size)]
    ensures Finish(s2) == Finish(stack) && Work(s2) < Work(stack)
  {
    var f := stack[|stack| - 1];
    var p := stack[|stack| - 2];
    assert Complete(f) == Laid(f.done, f.size);
    var size := f.size * NumericAttribute(f.node, "replication", 1);
    var g := f.node.(children := f.done, user := Some(NodeInfo(f.offset, size)));
    var p2 := p.(done := p.done + [g], size := p.size + size);
    assert stack == stack[..|stack| - 2] + [p] + [f];
    WorkSnoc(stack[..|stack| - 2], p);
    WorkSnoc(stack[..|stack| - 2] + [p], f);
    WorkSnoc(stack[..|stack| - 2], p2);
  }

  /**
   * The end of a visit in `layout_segment`: while the current group has no
   * children left, multiply its size by its replication, add it to its
   * parent and go up to the parent.
   */
  method GoUp(stack: seq<Frame>) returns (s: seq<Frame>)
    requires |stack| >= 1
    ensures |s| >= 1 && (s[|s| - 1].rest == [] ==> |s| == 1)
    ensures Finish(s) == Finish(stack) && Work(s) <= Work(stack)
  {
    s := stack;
    while s[|s| - 1].rest == [] && |s| > 1
      invariant |s| >= 1
      invariant Finish(s) == Finish(stack) && Work(s) <= Work(stack)
      decreases |s|
    {
      var f := s[|s| - 1];
      var p := s[|s| - 2];
      var repcount := NumericAttribute(f.node, "replication", 1);
      var size := f.size * repcount;
      ghost var s1 := s;
      s := s[..|s| - 2] +
           [p.(done := p.done + [f.node.(children := f.done, user := Some(NodeInfo(f.offset, size)))],
               size := p.size + size)];
      StepUp(s1, s);
    }
  }

  /**
   * `layout_segment`: the source's walk over the segment, descending into
   * groups with children and, at the end of a group's children, multiplying
   * the group's size by its replication and adding it to the parent. The
   * cursor pair (current parent, current child) is the top frame and its
   * index; going up to the father is popping a frame.
   */
  method LayoutSegment(segment: XmlNode) returns (r: XmlNode)
    requires segment.tag == "segment"
    requires NoUserInfo(segment)
    ensures r == LaidOutSegment(segment)
  {
    var origin := NumericAttribute(segment, "origin", 0);
    if segment.children == [] {
      return segment.(user := Some(NodeInfo(origin, 0)));
    }
    var stack := [Frame(segment, segment.children, [], 0, origin)];
    ghost var target := LaySeq(segment.children, 0);
    while true
      invariant |stack| >= 1 && stack[|stack| - 1].rest != []
      invariant Finish(stack) == target
      decreases Work(stack)
    {
      ghost var before := stack;
      var top := stack[|stack| - 1];
      var child := top.rest[0];
      if IsMeta(child.tag) {
        // Not a data element.
        stack := stack[..|stack| - 1] + [top.(done := top.done + [child], rest := top.rest[1..])];
        StepMeta(before, stack);
      } else {
        var offset := top.size + NumericAttribute(child, "offset", 0);
        if IsGroupWithChildren(child) {
          stack := stack[..|stack| - 1] + [top.(size := offset, rest := top.rest[1..]), Frame(child, child.children, [], 0, offset)];
          StepDown(before, stack);
          continue;
        }
        var size := LeafSize(child);
        stack := stack[..|stack| - 1] +
                 [top.(done := top.done + [child.(user := Some(NodeInfo(offset, size)))],
                       size := offset + size, rest := top.rest[1..])];
        StepLeaf(before, stack);
      }
      // Move to the next child, going up at the end of a group's children.
      stack := GoUp(stack);
      if stack[|stack| - 1].rest == [] {
        // End of iteration.
        break;
      }
    }
    var f := stack[0];
    assert Complete(f) == Laid(f.done, f.size);
    return segment.(children := f.done, user := Some(NodeInfo(origin, f.size)));
  }
}
