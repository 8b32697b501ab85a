/** The generic node model: the static facts every serializer supplies for a
    node, the tree those nodes form, and the minimal sizes and minimal byte
    offsets derived from them by structural recursion. */
module Nodes {
  import opened Paths

  /** The facts a serializer declares for one node: whether it is handled
      as one unit (`primitive`) or through its children (composite), and for
      each of the three zones (prepend = header, payload, postpend = footer)
      whether its size is fixed and its minimal size. */
  datatype NodeFacts = NodeFacts(
    primitive: bool,
    prependFixed: bool,
    prependMin: nat,
    payloadFixed: bool,
    payloadMin: nat,
    postpendFixed: bool,
    postpendMin: nat,
    memoryCompatible: bool)

  /** A node together with the nodes `at<0>` ... `at<size-1>` below it. */
  datatype Tree = Tree(facts: NodeFacts, children: seq<Tree>)
  {
    /** `size`: the number of children. */
    function Size(): nat { |children| }
  }

  /** A path is valid when every index selects an existing child of a
      composite node (a primitive node is never entered). */
  ghost predicate ValidPath(t: Tree, p: seq<nat>)
    decreases |p|
  {
    |p| == 0 || (!t.facts.primitive && p[0] < |t.children| && ValidPath(t.children[p[0]], p[1..]))
  }

  /** The node a path designates. */
  function Sub(t: Tree, p: seq<nat>): (n: Tree)
    requires ValidPath(t, p)
    decreases |p|
  {
    if |p| == 0 then t else Sub(t.children[p[0]], p[1..])
  }

  /** `payload_minimal_size`: a primitive node's declared payload minimum,
      or the sum of the children's total minimal sizes for a composite. */
  function PayloadMinimalSize(t: Tree): nat
    decreases t, 1
  {
    if t.facts.primitive then t.facts.payloadMin else SumTotals(t.children, |t.children|)
  }

  /** `total_minimal_size`: prepend, payload and postpend minimal sizes. */
  function TotalMinimalSize(t: Tree): nat
    decreases t, 2
  {
    t.facts.prependMin + PayloadMinimalSize(t) + t.facts.postpendMin
  }

  /** Sum of the total minimal sizes of the first `k` nodes of `cs`. */
  function SumTotals(cs: seq<Tree>, k: nat): nat
    requires k <= |cs|
    decreases cs, k
  {
    if k == 0 then 0 else SumTotals(cs, k - 1) + TotalMinimalSize(cs[k - 1])
  }

  /** `offset_from_parent_begin`: the parent's header plus every earlier
      sibling's total minimal size. */
  function OffsetFromParentBegin(t: Tree, p: seq<nat>): nat
    requires |p| > 0 && ValidPath(t, p)
  {
    ValidParent(t, p);
    var parent := Sub(t, Parent(p));
    parent.facts.prependMin + SumTotals(parent.children, Last(p))
  }

  /** `prepend_minimal_offset`: zero at the root, else the parent's own offset
      plus `offset_from_parent_begin`. */
  function PrependMinimalOffset(t: Tree, p: seq<nat>): nat
    requires ValidPath(t, p)
    decreases |p|
  {
    if |p| == 0 then 0
    else
      ValidParent(t, p);
      PrependMinimalOffset(t, Parent(p)) + OffsetFromParentBegin(t, p)
  }

  /** `payload_minimal_offset`. */
  function PayloadMinimalOffset(t: Tree, p: seq<nat>): nat
    requires ValidPath(t, p)
  {
    PrependMinimalOffset(t, p) + Sub(t, p).facts.prependMin
  }

  /** `postpend_minimal_offset`. */
  function PostpendMinimalOffset(t: Tree, p: seq<nat>): nat
    requires ValidPath(t, p)
  {
    PayloadMinimalOffset(t, p) + PayloadMinimalSize(Sub(t, p))
  }

  /** One past the last byte of a node's minimal extent. */
  function EndMinimalOffset(t: Tree, p: seq<nat>): nat
    requires ValidPath(t, p)
  {
    PostpendMinimalOffset(t, p) + Sub(t, p).facts.postpendMin
  }

  // ---------------------------------------------------------------------
  // Path lemmas

  /** The parent of a valid path is valid, and the node sits among its children. */
  lemma {:induction false} ValidParent(t: Tree, p: seq<nat>)
    requires |p| > 0 && ValidPath(t, p)
    ensures ValidPath(t, Parent(p))
    ensures !Sub(t, Parent(p)).facts.primitive && Last(p) < |Sub(t, Parent(p)).children|
    ensures Sub(t, Parent(p)).children[Last(p)] == Sub(t, p)
    decreases |p|
  {
    if |p| > 1 {
      ValidParent(t.children[p[0]], p[1..]);
      assert Parent(p[1..]) == Parent(p)[1..];
    }
  }

  /** Extending a valid path by an existing child index gives a valid path to that child. */
  lemma {:induction false} ValidChild(t: Tree, p: seq<nat>, i: nat)
    requires ValidPath(t, p) && !Sub(t, p).facts.primitive && i < |Sub(t, p).children|
    ensures ValidPath(t, p + [i])
    ensures Sub(t, p + [i]) == Sub(t, p).children[i]
    decreases |p|
  {
    if |p| > 0 {
      assert (p + [i])[1..] == p[1..] + [i];
      ValidChild(t.children[p[0]], p[1..], i);
    }
  }

  /** Concatenated paths navigate step by step. */
  lemma {:induction false} SubAppend(t: Tree, p: seq<nat>, q: seq<nat>)
    requires ValidPath(t, p) && ValidPath(Sub(t, p), q)
    ensures ValidPath(t, p + q) && Sub(t, p + q) == Sub(Sub(t, p), q)
    decreases |p|
  {
    if |p| > 0 {
      assert (p + q)[1..] == p[1..] + q;
      SubAppend(t.children[p[0]], p[1..], q);
    } else {
      assert p + q == q;
    }
  }

  // ---------------------------------------------------------------------
  // Size composition

  /** Summing all children's totals of a composite gives its payload minimal
      size; a composite with no children has an empty payload. */
  lemma CompositePayload(t: Tree)
    requires !t.facts.primitive
    ensures PayloadMinimalSize(t) == SumTotals(t.children, |t.children|)
    ensures |t.children| == 0 ==> PayloadMinimalSize(t) == 0
    ensures TotalMinimalSize(t) == t.facts.prependMin + SumTotals(t.children, |t.children|) + t.facts.postpendMin
  {
  }

  /** Partial sums grow with the number of summed siblings. */
  lemma {:induction false} SumTotalsMonotone(cs: seq<Tree>, j: nat, k: nat)
    requires j <= k <= |cs|
    ensures SumTotals(cs, j) <= SumTotals(cs, k)
    decreases k - j
  {
    if j < k {
      SumTotalsMonotone(cs, j + 1, k);
    }
  }

  // ---------------------------------------------------------------------
  // Offsets

  /** The root's prepend zone starts at byte 0. */
  lemma RootOffset(t: Tree)
    ensures PrependMinimalOffset(t, []) == 0
    ensures PayloadMinimalOffset(t, []) == t.facts.prependMin
    ensures EndMinimalOffset(t, []) == TotalMinimalSize(t)
  {
  }

  /** A child's prepend offset is the parent's prepend offset plus the
      parent's header and the totals of all earlier siblings. */
  lemma ChildOffset(t: Tree, p: seq<nat>, i: nat)
    requires ValidPath(t, p) && !Sub(t, p).facts.primitive && i < |Sub(t, p).children|
    ensures ValidPath(t, p + [i])
    ensures PrependMinimalOffset(t, p + [i]) ==
            PrependMinimalOffset(t, p) + Sub(t, p).facts.prependMin + SumTotals(Sub(t, p).children, i)
  {
    ValidChild(t, p, i);
    ParentOfChild(p, i);
  }

  /** The first child starts where the parent's payload starts. */
  lemma FirstChildOffset(t: Tree, p: seq<nat>)
    requires ValidPath(t, p) && !Sub(t, p).facts.primitive && |Sub(t, p).children| > 0
    ensures ValidPath(t, p + [0])
    ensures PrependMinimalOffset(t, p + [0]) == PayloadMinimalOffset(t, p)
  {
    ChildOffset(t, p, 0);
  }

  /** Siblings are laid out back to back: child i+1 starts where child i's
      postpend zone ends. */
  lemma NextSiblingOffset(t: Tree, p: seq<nat>, i: nat)
    requires ValidPath(t, p) && !Sub(t, p).facts.primitive && i + 1 < |Sub(t, p).children|
    ensures ValidPath(t, p + [i]) && ValidPath(t, p + [i + 1])
    ensures PrependMinimalOffset(t, p + [i + 1]) == EndMinimalOffset(t, p + [i])
  {
    ChildOffset(t, p, i + 1);
    ChildExtent(t, p, i);
  }

  /** Child i ends after the parent's header and the totals of children 0 to i. */
  lemma ChildExtent(t: Tree, p: seq<nat>, i: nat)
    requires ValidPath(t, p) && !Sub(t, p).facts.primitive && i < |Sub(t, p).children|
    ensures ValidPath(t, p + [i])
    ensures EndMinimalOffset(t, p + [i]) ==
            PrependMinimalOffset(t, p) + Sub(t, p).facts.prependMin + SumTotals(Sub(t, p).children, i + 1)
  {
    ChildOffset(t, p, i);
    ValidChild(t, p, i);
    ExtentIsTotal(t, p + [i]);
    SumTotalsNext(Sub(t, p).children, i);
  }

  lemma SumTotalsNext(cs: seq<Tree>, i: nat)
    requires i < |cs|
    ensures SumTotals(cs, i + 1) == SumTotals(cs, i) + TotalMinimalSize(cs[i])
  {
  }

  /** A node's minimal extent is its total minimal size. */
  lemma ExtentIsTotal(t: Tree, q: seq<nat>)
    requires ValidPath(t, q)
    ensures EndMinimalOffset(t, q) == PrependMinimalOffset(t, q) + TotalMinimalSize(Sub(t, q))
  {
  }

  /** The last child of a composite ends where the parent's postpend zone starts. */
  lemma LastChildEnd(t: Tree, p: seq<nat>)
    requires ValidPath(t, p) && !Sub(t, p).facts.primitive && |Sub(t, p).children| > 0
    ensures ValidPath(t, p + [|Sub(t, p).children| - 1])
    ensures EndMinimalOffset(t, p + [|Sub(t, p).children| - 1]) == PostpendMinimalOffset(t, p)
  {
    var cs, i := Sub(t, p).children, |Sub(t, p).children| - 1;
    ChildExtent(t, p, i);
    assert SumTotals(cs, i + 1) == SumTotals(cs, |cs|);
    CompositePayload(Sub(t, p));
    PostpendOffset(t, p);
    assert EndMinimalOffset(t, p + [i]) == PostpendMinimalOffset(t, p);
  }

  /** The postpend zone starts after the prepend zone and the payload. */
  lemma PostpendOffset(t: Tree, p: seq<nat>)
    requires ValidPath(t, p)
    ensures PostpendMinimalOffset(t, p) == PrependMinimalOffset(t, p) + Sub(t, p).facts.prependMin + PayloadMinimalSize(Sub(t, p))
  {
  }

  /** Every node's minimal extent lies inside its parent's payload, and so
      inside the root's total minimal size. */
  lemma {:induction false} ExtentWithinRoot(t: Tree, p: seq<nat>)
    requires ValidPath(t, p)
    ensures EndMinimalOffset(t, p) <= TotalMinimalSize(t)
    decreases |p|
  {
    if |p| > 0 {
      ValidParent(t, p);
      var q, i := Parent(p), Last(p);
      ParentThenLast(p);
      assert p == q + [i];
      ExtentWithinRoot(t, q);
      var parent := Sub(t, q);
      ChildOffset(t, q, i);
      SumTotalsMonotone(parent.children, i, |parent.children|);
      assert SumTotals(parent.children, i + 1) == SumTotals(parent.children, i) + TotalMinimalSize(Sub(t, p));
      SumTotalsMonotone(parent.children, i + 1, |parent.children|);
      assert EndMinimalOffset(t, p) == PrependMinimalOffset(t, p) + TotalMinimalSize(Sub(t, p));
      assert EndMinimalOffset(t, q) == PrependMinimalOffset(t, q) + TotalMinimalSize(parent);
    }
  }
}
