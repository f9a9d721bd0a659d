/**
 * `CDINodeRep`: the absolute address of a segment or group in its memory
 * space, derived from the layout records `layout_segment` attaches. The
 * address is the source's `unsigned`, so every sum and product is taken
 * modulo 2^32; the layout records are the source's `int`, and the stride of
 * a repeated group is their C division, which truncates toward zero.
 */
module CdiNodeRep {
  import opened Wrappers
  import opened MachineInt
  import opened CdiLayout

  /** C's `/` on `int`: the quotient truncated toward zero. */
  function TruncDiv(a: int, b: int): (r: int)
    requires b > 0
    ensures a >= 0 ==> r == a / b
    ensures a < 0 ==> r == -((-a) / b)
  {
    if a >= 0 then a / b else -((-a) / b)
  }

  /** A segment or group, and the address of its start. */
  datatype NodeRep = NodeRep(node: XmlNode, address: nat)

  /** `CDINodeRep(segment)`: a segment starts at its own offset, the origin. */
  function SegmentRep(segment: XmlNode): (r: NodeRep)
    requires segment.user.Some?
    ensures r.node == segment && r.address == U32(segment.user.value.offsetFromParent)
    ensures r.address < U32_MODULUS
  {
    NodeRep(segment, U32(segment.user.value.offsetFromParent))
  }

  /** `get_child_address`: the parent's address plus the child's offset within it. */
  function ChildAddress(parent: NodeRep, child: XmlNode): (r: nat)
    requires child in parent.node.children && child.user.Some?
    ensures r < U32_MODULUS
    ensures (r - (parent.address + child.user.value.offsetFromParent)) % U32_MODULUS == 0
  {
    U32(parent.address + child.user.value.offsetFromParent)
  }

  /** `CDINodeRep(parent, group)`: a group that is not repeated starts at its child address. */
  function GroupRep(parent: NodeRep, group: XmlNode): (r: NodeRep)
    requires group in parent.node.children && group.user.Some?
    requires group.tag == "group" && GetReplication(group) == 1
    ensures r.node == group && r.address == ChildAddress(parent, group)
  {
    NodeRep(group, ChildAddress(parent, group))
  }

  /** The distance between consecutive replicas: the group's recorded size divided by its replication. */
  function Stride(group: XmlNode): (r: nat)
    requires group.user.Some? && group.tag == "group" && GetReplication(group) > 1
    ensures r < U32_MODULUS
  {
    U32(TruncDiv(group.user.value.size, GetReplication(group)))
  }

  /** `CDINodeRep(parent, group, replica)`: replica `replica` of a repeated group. */
  function ReplicaRep(parent: NodeRep, group: XmlNode, replica: nat): (r: NodeRep)
    requires group in parent.node.children && group.user.Some?
    requires group.tag == "group" && GetReplication(group) > 1
    requires replica < U32_MODULUS
    ensures r.node == group && r.address < U32_MODULUS
    ensures replica == 0 ==> r.address == ChildAddress(parent, group)
  {
    NodeRep(group, U32(ChildAddress(parent, group) + U32(Stride(group) * replica)))
  }

  /** Adding a multiple of 2^32 does not change the conversion to `unsigned`. */
  lemma U32Shift(x: int, q: int)
    ensures U32(x + q * U32_MODULUS) == U32(x)
  {
    var d := x / U32_MODULUS;
    assert x == d * U32_MODULUS + U32(x);
    assert x + q * U32_MODULUS == (d + q) * U32_MODULUS + U32(x);
  }

  lemma U32Sum(a: int, b: int)
    ensures U32(U32(a) + b) == U32(a + b)
    ensures U32(a + U32(b)) == U32(a + b)
  {
    var p := a / U32_MODULUS;
    assert a == p * U32_MODULUS + U32(a);
    U32Shift(U32(a) + b, p);
    var q := b / U32_MODULUS;
    assert b == q * U32_MODULUS + U32(b);
    U32Shift(a + U32(b), q);
  }

  /** The replicas of a group follow one another at the stride, modulo 2^32. */
  lemma ReplicaStep(parent: NodeRep, group: XmlNode, replica: nat)
    requires group in parent.node.children && group.user.Some?
    requires group.tag == "group" && GetReplication(group) > 1
    requires replica + 1 < U32_MODULUS
    ensures ReplicaRep(parent, group, replica + 1).address == U32(ReplicaRep(parent, group, replica).address + Stride(group))
  {
    var st := Stride(group);
    assert st * (replica + 1) == st * replica + st;
    U32Step(ChildAddress(parent, group), st, st * replica, st * (replica + 1));
  }

  /** One more stride `st` from `base + p`, in `unsigned` arithmetic. */
  lemma U32Step(base: int, st: int, p: int, p1: int)
    requires p1 == p + st
    ensures U32(base + U32(p1)) == U32(U32(base + U32(p)) + st)
  {
    U32Sum(base, p1);
    U32Sum(base, p);
    U32Sum(base + p, st);
  }

  /** Strides equal modulo 2^32 reach equal addresses after n steps. */
  lemma U32ScaledEquiv(base: int, st: int, span: int, n: int)
    requires (st - span) % U32_MODULUS == 0
    ensures U32(base + U32(st * n)) == U32(base + span * n)
  {
    var q := (st - span) / U32_MODULUS;
    assert st == span + q * U32_MODULUS;
    assert st * n == span * n + (q * n) * U32_MODULUS;
    U32Sum(base, st * n);
    U32Shift(base + span * n, q * n);
  }

  /** Euclidean division undoes an exact multiplication. */
  lemma MulDiv(t: int, n: int)
    requires n > 0
    ensures (t * n) / n == t
  {
    var d := (t * n) / n;
    var m := (t * n) % n;
    assert t * n == d * n + m && 0 <= m < n;
    assert (t - d) * n == m;
    if t - d >= 1 {
      MulAtLeast(t - d, n);
    } else if t - d <= -1 {
      MulAtLeast(d - t, n);
    }
  }

  /** Truncating division undoes the multiplication of a size by its replication. */
  lemma TruncDivOfProduct(t: int, n: int)
    requires n > 0
    ensures TruncDiv(t * n, n) == t
  {
    if t >= 0 {
      MulAtLeast(1, n);
      if t > 0 { MulAtLeast(t, n); }
      assert t * n >= 0 by { if t == 0 { assert t * n == 0; } }
      MulDiv(t, n);
    } else {
      assert -(t * n) == (-t) * n;
      MulAtLeast(-t, n);
      MulDiv(-t, n);
    }
  }

  /**
   * For a repeated group laid out by `layout_segment`, the stride is the
   * size of one replica: the span of the group's children, modulo 2^32.
   * Replica `replica` thus starts `replica` spans after the group's child
   * address.
   */
  lemma LaidOutReplicaStride(parent: NodeRep, c: XmlNode, group: XmlNode, before: int, replica: nat)
    requires LaidChild(c, group, before) && IsGroupWithChildren(c) && GetReplication(c) > 1
    requires group in parent.node.children
    requires replica < U32_MODULUS
    ensures group.user.Some? && group.tag == "group" && GetReplication(group) > 1
    ensures Stride(group) == U32(Span(c.children))
    ensures ReplicaRep(parent, group, replica).address
         == U32(parent.address + before + NumericAttribute(c, "offset", 0) + Span(c.children) * replica)
  {
    assert NumericAttribute(group, "replication", 1) == NumericAttribute(c, "replication", 1);
    TruncDivOfProduct(Span(c.children), GetReplication(c));
    ReplicaAddress(parent.address, group.user.value.offsetFromParent, Stride(group), Span(c.children), replica);
  }

  /** The address `n` strides past `pa + ofs`, for a stride equal to `span` modulo 2^32. */
  lemma ReplicaAddress(pa: int, ofs: int, st: int, span: int, n: int)
    requires (st - span) % U32_MODULUS == 0
    ensures U32(U32(pa + ofs) + U32(st * n)) == U32(pa + ofs + span * n)
  {
    U32ScaledEquiv(U32(pa + ofs), st, span, n);
    U32Sum(pa + ofs, span * n);
  }

  /**
   * The absolute address of a data element of a laid-out segment: the
   * segment's origin plus the span of the siblings before it plus its
   * offset attribute, modulo 2^32.
   */
  lemma SegmentChildAddress(segment: XmlNode, k: nat)
    requires k < |segment.children|
    requires !IsMeta(segment.children[k].tag)
    ensures |LaidOutSegment(segment).children| == |segment.children|
    ensures LaidOutSegment(segment).children[k].user.Some?
    ensures ChildAddress(SegmentRep(LaidOutSegment(segment)), LaidOutSegment(segment).children[k])
         == U32(NumericAttribute(segment, "origin", 0) + Span(segment.children[..k])
                + NumericAttribute(segment.children[k], "offset", 0))
  {
    LaidOutSegmentChild(segment, k);
    var r := LaidOutSegment(segment);
    var child := r.children[k];
    assert child in r.children;
    var origin := NumericAttribute(segment, "origin", 0);
    assert child.user.value.offsetFromParent
        == Span(segment.children[..k]) + NumericAttribute(segment.children[k], "offset", 0);
    U32Sum(origin, child.user.value.offsetFromParent);
  }
}
