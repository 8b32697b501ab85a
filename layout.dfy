/** The byte ranges the steps stand for. Each step covers one zone of the
    minimal layout (a direct copy covers the payloads of its nodes); the
    generated list, and the compacted list, cover the root's minimal extent
    from byte 0 to `total_minimal_size` in order, without gap or overlap. */
module Layout {
  import opened Paths
  import opened Nodes
  import opened Steps

  /** The payloads of `ns` lie back to back in the minimal layout. */
  ghost predicate Contiguous(t: Tree, ns: seq<seq<nat>>)
    requires forall k :: 0 <= k < |ns| ==> ValidPath(t, ns[k])
  {
    forall k :: 0 < k < |ns| ==>
      PayloadMinimalOffset(t, ns[k]) == PayloadMinimalOffset(t, ns[k - 1]) + PayloadMinimalSize(Sub(t, ns[k - 1]))
  }

  /** The step names existing nodes (a direct copy: a non-empty run of contiguous payloads). */
  ghost predicate StepOk(t: Tree, s: Step)
  {
    match s
    case Prepend(q) => ValidPath(t, q)
    case Payload(q) => ValidPath(t, q)
    case Postpend(q) => ValidPath(t, q)
    case DirectCopy(qs) => |qs| > 0 && (forall k :: 0 <= k < |qs| ==> ValidPath(t, qs[k])) && Contiguous(t, qs)
    case All(q) => ValidPath(t, q)
  }

  /** First byte of the zone a step handles, in the minimal layout. */
  function StepStart(t: Tree, s: Step): nat
    requires StepOk(t, s)
  {
    match s
    case Prepend(q) => PrependMinimalOffset(t, q)
    case Payload(q) => PayloadMinimalOffset(t, q)
    case Postpend(q) => PostpendMinimalOffset(t, q)
    case DirectCopy(qs) => PayloadMinimalOffset(t, qs[0])
    case All(q) => PayloadMinimalOffset(t, q)
  }

  /** One past the last byte of the zone a step handles. */
  function StepEnd(t: Tree, s: Step): nat
    requires StepOk(t, s)
  {
    match s
    case Prepend(q) => PayloadMinimalOffset(t, q)
    case Payload(q) => PostpendMinimalOffset(t, q)
    case Postpend(q) => EndMinimalOffset(t, q)
    case DirectCopy(qs) => PayloadMinimalOffset(t, qs[0]) + Length(t, qs)
    case All(q) => PostpendMinimalOffset(t, q)
  }

  /** The steps' zones follow one another and cover `[lo, hi)` exactly. */
  ghost predicate Tiles(t: Tree, s: seq<Step>, lo: nat, hi: nat)
    decreases |s|
  {
    if |s| == 0 then lo == hi
    else StepOk(t, s[0]) && StepStart(t, s[0]) == lo && Tiles(t, s[1..], StepEnd(t, s[0]), hi)
  }

  lemma {:induction false} TilesAppend(t: Tree, a: seq<Step>, b: seq<Step>, lo: nat, mid: nat, hi: nat)
    requires Tiles(t, a, lo, mid) && Tiles(t, b, mid, hi)
    ensures Tiles(t, a + b, lo, hi)
    decreases |a|
  {
    if |a| == 0 {
      assert a + b == b;
    } else {
      assert (a + b)[1..] == a[1..] + b;
      TilesAppend(t, a[1..], b, StepEnd(t, a[0]), mid, hi);
    }
  }

  /** `TilesAppend` for a list known to be the concatenation. */
  lemma TilesJoin(t: Tree, a: seq<Step>, b: seq<Step>, ab: seq<Step>, lo: nat, mid: nat, hi: nat)
    requires ab == a + b && Tiles(t, a, lo, mid) && Tiles(t, b, mid, hi)
    ensures Tiles(t, ab, lo, hi)
  {
    TilesAppend(t, a, b, lo, mid, hi);
  }

  /** Where a covered prefix ends. */
  ghost function Reach(t: Tree, s: seq<Step>, lo: nat): nat
    decreases |s|
  {
    if |s| == 0 || !StepOk(t, s[0]) then lo else Reach(t, s[1..], StepEnd(t, s[0]))
  }

  lemma {:induction false} TilesSplit(t: Tree, a: seq<Step>, b: seq<Step>, lo: nat, hi: nat)
    requires Tiles(t, a + b, lo, hi)
    ensures Tiles(t, a, lo, Reach(t, a, lo)) && Tiles(t, b, Reach(t, a, lo), hi)
    decreases |a|
  {
    if |a| == 0 {
      assert a + b == b;
    } else {
      assert (a + b)[1..] == a[1..] + b;
      TilesSplit(t, a[1..], b, StepEnd(t, a[0]), hi);
    }
  }

  // ---------------------------------------------------------------------
  // Generation covers the node's extent

  lemma PrependStepsTile(t: Tree, p: seq<nat>)
    requires ValidPath(t, p)
    ensures Tiles(t, PrependSteps(Sub(t, p), p), PrependMinimalOffset(t, p), PayloadMinimalOffset(t, p))
  {
    if !PrependOmitted(Sub(t, p).facts) {
      assert PrependSteps(Sub(t, p), p)[1..] == [];
    }
  }

  lemma PostpendStepsTile(t: Tree, p: seq<nat>)
    requires ValidPath(t, p)
    ensures Tiles(t, PostpendSteps(Sub(t, p), p), PostpendMinimalOffset(t, p), EndMinimalOffset(t, p))
  {
    if !PostpendOmitted(Sub(t, p).facts) {
      assert PostpendSteps(Sub(t, p), p)[1..] == [];
    }
  }

  lemma PrimitivePayloadStepsTile(t: Tree, p: seq<nat>)
    requires ValidPath(t, p)
    ensures Tiles(t, PrimitivePayloadSteps(Sub(t, p), p), PayloadMinimalOffset(t, p), PostpendMinimalOffset(t, p))
  {
    var n := Sub(t, p);
    if !PayloadOmitted(n) {
      if n.facts.memoryCompatible {
        CopyStepTile(t, p);
      } else {
        assert [Payload(p)][1..] == [];
      }
    }
  }

  /** A one-node direct copy covers that node's payload. */
  lemma CopyStepTile(t: Tree, p: seq<nat>)
    requires ValidPath(t, p)
    ensures Tiles(t, [DirectCopy([p])], PayloadMinimalOffset(t, p), PostpendMinimalOffset(t, p))
  {
    LengthAppend(t, [], p);
    assert StepOk(t, DirectCopy([p]));
    assert [DirectCopy([p])][1..] == [];
  }

  /** The steps generated for the node at `p` cover its whole minimal
      extent, from its prepend offset to the end of its postpend zone. */
  lemma {:induction false} GenerateTiles(t: Tree, p: seq<nat>)
    requires ValidPath(t, p)
    ensures Tiles(t, Generate(Sub(t, p), p), PrependMinimalOffset(t, p), EndMinimalOffset(t, p))
    decreases Sub(t, p), 1
  {
    var n := Sub(t, p);
    var a, b, c, d := PrependMinimalOffset(t, p), PayloadMinimalOffset(t, p), PostpendMinimalOffset(t, p), EndMinimalOffset(t, p);
    PrependStepsTile(t, p);
    PostpendStepsTile(t, p);
    var body := if n.facts.primitive then PrimitivePayloadSteps(n, p) else GenerateChildren(n.children, p, |n.children|);
    if n.facts.primitive {
      PrimitivePayloadStepsTile(t, p);
    } else {
      GenerateChildrenTiles(t, p, n.children, b, |n.children|);
    }
    assert Tiles(t, body, b, c);
    TilesAppend(t, PrependSteps(n, p), body, a, b, c);
    TilesAppend(t, PrependSteps(n, p) + body, PostpendSteps(n, p), a, c, d);
  }

  /** Child `k - 1` of the composite at `p` spans from the end of its
      elder siblings to the end of itself, inside the composite's payload. */
  lemma ChildSpan(t: Tree, p: seq<nat>, k: nat)
    requires ValidPath(t, p) && !Sub(t, p).facts.primitive && 0 < k <= |Sub(t, p).children|
    ensures ValidPath(t, p + [k - 1]) && Sub(t, p + [k - 1]) == Sub(t, p).children[k - 1]
    ensures PrependMinimalOffset(t, p + [k - 1]) == PayloadMinimalOffset(t, p) + SumTotals(Sub(t, p).children, k - 1)
    ensures EndMinimalOffset(t, p + [k - 1]) == PayloadMinimalOffset(t, p) + SumTotals(Sub(t, p).children, k)
  {
    ChildOffset(t, p, k - 1);
    ValidChild(t, p, k - 1);
    var c := Sub(t, p + [k - 1]);
    assert EndMinimalOffset(t, p + [k - 1]) == PrependMinimalOffset(t, p + [k - 1]) + TotalMinimalSize(c);
  }

  /** The first `k` children's steps cover the composite's payload, which
      starts at `lo`, up to the end of child `k - 1`. */
  lemma {:induction false} GenerateChildrenTiles(t: Tree, p: seq<nat>, cs: seq<Tree>, lo: nat, k: nat)
    requires ValidPath(t, p) && !Sub(t, p).facts.primitive
    requires cs == Sub(t, p).children && lo == PayloadMinimalOffset(t, p) && k <= |cs|
    ensures Tiles(t, GenerateChildren(cs, p, k), lo, lo + SumTotals(cs, k))
    decreases Sub(t, p), 0, k, 2
  {
    if k == 0 {
      assert GenerateChildren(cs, p, 0) == [];
    } else {
      GenerateChildrenTiles(t, p, cs, lo, k - 1);
      ChildStepsTile(t, p, cs, lo, k);
    }
  }

  /** Adding child `k - 1`'s steps to a cover of its elder siblings covers
      the composite's payload up to that child's end. */
  lemma {:induction false} ChildStepsTile(t: Tree, p: seq<nat>, cs: seq<Tree>, lo: nat, k: nat)
    requires ValidPath(t, p) && !Sub(t, p).facts.primitive
    requires cs == Sub(t, p).children && lo == PayloadMinimalOffset(t, p) && 0 < k <= |cs|
    requires Tiles(t, GenerateChildren(cs, p, k - 1), lo, lo + SumTotals(cs, k - 1))
    ensures Tiles(t, GenerateChildren(cs, p, k), lo, lo + SumTotals(cs, k))
    decreases Sub(t, p), 0, k, 1
  {
    ChildTile(t, p, cs, lo, k);
    JoinChild(t, p, cs, k, lo, lo + SumTotals(cs, k - 1), lo + SumTotals(cs, k));
  }

  /** A cover of the elder siblings' steps followed by a cover of child
      `k - 1`'s steps covers the first `k` children's steps. */
  lemma JoinChild(t: Tree, p: seq<nat>, cs: seq<Tree>, k: nat, lo: nat, mid: nat, hi: nat)
    requires 0 < k <= |cs|
    requires Tiles(t, GenerateChildren(cs, p, k - 1), lo, mid) && Tiles(t, Generate(cs[k - 1], p + [k - 1]), mid, hi)
    ensures Tiles(t, GenerateChildren(cs, p, k), lo, hi)
  {
    GenerateChildrenNext(cs, p, k);
    TilesJoin(t, GenerateChildren(cs, p, k - 1), Generate(cs[k - 1], p + [k - 1]), GenerateChildren(cs, p, k), lo, mid, hi);
  }

  /** Child `k - 1`'s own steps cover its extent. */
  lemma {:induction false} ChildTile(t: Tree, p: seq<nat>, cs: seq<Tree>, lo: nat, k: nat)
    requires ValidPath(t, p) && !Sub(t, p).facts.primitive
    requires cs == Sub(t, p).children && lo == PayloadMinimalOffset(t, p) && 0 < k <= |cs|
    ensures Tiles(t, Generate(cs[k - 1], p + [k - 1]), lo + SumTotals(cs, k - 1), lo + SumTotals(cs, k))
    decreases Sub(t, p), 0, k, 0
  {
    ChildSpan(t, p, k);
    GenerateTiles(t, p + [k - 1]);
  }

  // ---------------------------------------------------------------------
  // Compaction keeps the cover

  /** A contiguous run ends where its last node's payload ends. */
  lemma {:induction false} ContiguousEnd(t: Tree, ns: seq<seq<nat>>)
    requires |ns| > 0 && (forall k :: 0 <= k < |ns| ==> ValidPath(t, ns[k])) && Contiguous(t, ns)
    ensures PayloadMinimalOffset(t, ns[0]) + Length(t, ns) ==
            PayloadMinimalOffset(t, ns[|ns| - 1]) + PayloadMinimalSize(Sub(t, ns[|ns| - 1]))
    decreases |ns|
  {
    if |ns| > 1 {
      var init := ns[..|ns| - 1];
      ContiguousEnd(t, init);
    }
  }

  /** Two adjacent contiguous copies merge into one contiguous copy of the same range. */
  lemma MergeStep(t: Tree, x: Step, y: Step)
    requires x.DirectCopy? && y.DirectCopy? && |y.nodes| == 1
    requires StepOk(t, x) && StepOk(t, y) && StepEnd(t, x) == StepStart(t, y)
    ensures StepOk(t, DirectCopy(x.nodes + [y.nodes[0]]))
    ensures StepStart(t, DirectCopy(x.nodes + [y.nodes[0]])) == StepStart(t, x)
    ensures StepEnd(t, DirectCopy(x.nodes + [y.nodes[0]])) == StepEnd(t, y)
  {
    var a, b := x.nodes, y.nodes[0];
    assert y.nodes == [b];
    ContiguousEnd(t, a);
    LengthAppend(t, a, b);
    var ns := a + [b];
    forall k | 0 < k < |ns|
      ensures PayloadMinimalOffset(t, ns[k]) == PayloadMinimalOffset(t, ns[k - 1]) + PayloadMinimalSize(Sub(t, ns[k - 1]))
    {
      if k < |a| {
        assert ns[k] == a[k] && ns[k - 1] == a[k - 1];
      }
    }
  }

  /** Merging two adjacent direct copies of a cover gives a cover of the same range. */
  lemma MergeTiles(t: Tree, s: seq<Step>, i: nat, lo: nat, hi: nat)
    requires 1 <= i < |s| && s[i - 1].DirectCopy? && s[i].DirectCopy? && |s[i].nodes| == 1
    requires Tiles(t, s, lo, hi)
    ensures Tiles(t, s[..i - 1] + [DirectCopy(s[i - 1].nodes + [s[i].nodes[0]])] + s[i + 1..], lo, hi)
  {
    var x, y := s[i - 1], s[i];
    var m := DirectCopy(x.nodes + [y.nodes[0]]);
    var front, back := s[..i - 1], s[i + 1..];
    assert s == front + ([x, y] + back);
    TilesSplit(t, front, [x, y] + back, lo, hi);
    var mid := Reach(t, front, lo);
    MergePairTiles(t, x, y, back, mid, hi);
    assert front + ([m] + back) == front + [m] + back;
    TilesJoin(t, front, [m] + back, front + [m] + back, lo, mid, hi);
  }

  /** A cover that starts with two direct copies, the second of one node,
      stays a cover when they are merged. */
  lemma MergePairTiles(t: Tree, x: Step, y: Step, back: seq<Step>, lo: nat, hi: nat)
    requires x.DirectCopy? && y.DirectCopy? && |y.nodes| == 1
    requires Tiles(t, [x, y] + back, lo, hi)
    ensures Tiles(t, [DirectCopy(x.nodes + [y.nodes[0]])] + back, lo, hi)
  {
    var m := DirectCopy(x.nodes + [y.nodes[0]]);
    assert ([x, y] + back)[1..] == [y] + back;
    assert ([y] + back)[1..] == back;
    MergeStep(t, x, y);
    assert ([m] + back)[1..] == back;
  }

  /** One merge of `generate_serialize_step_list_compact` keeps the cover
      and the conditions for carrying on at the same position. */
  lemma MergeKeeps(t: Tree, s: seq<Step>, i: nat, lo: nat, hi: nat)
    requires 1 <= i < |s| && SingleCopiesFrom(s, i) && NoAdjacentCopies(s[..i])
    requires s[i - 1].DirectCopy? && s[i].DirectCopy?
    requires Tiles(t, s, lo, hi)
    ensures var removed := RemoveAt(ReplaceAt(s, i - 1, DirectCopy(s[i - 1].nodes + [s[i].nodes[0]])), i);
      i <= |removed| && SingleCopiesFrom(removed, i) && NoAdjacentCopies(removed[..i]) && Tiles(t, removed, lo, hi)
  {
    MergeKeepsShape(s, i);
    MergeTiles(t, s, i, lo, hi);
  }

  lemma {:induction false} CompactFromTiles(t: Tree, s: seq<Step>, i: nat, lo: nat, hi: nat)
    requires 1 <= i <= |s| && SingleCopiesFrom(s, i) && NoAdjacentCopies(s[..i])
    requires Tiles(t, s, lo, hi)
    ensures Tiles(t, CompactFrom(s, i), lo, hi)
    decreases |s| - i
  {
    if i < |s| {
      if s[i - 1].DirectCopy? && s[i].DirectCopy? {
        MergeKeeps(t, s, i, lo, hi);
        var removed := RemoveAt(ReplaceAt(s, i - 1, DirectCopy(s[i - 1].nodes + [s[i].nodes[0]])), i);
        CompactFromTiles(t, removed, i, lo, hi);
      } else {
        SkipKeepsShape(s, i);
        CompactFromTiles(t, s, i + 1, lo, hi);
      }
    }
  }

  /** Compaction keeps the cover: merged copies span contiguous payloads. */
  lemma CompactTiles(t: Tree, s: seq<Step>, lo: nat, hi: nat)
    requires SingleCopiesFrom(s, 0) && Tiles(t, s, lo, hi)
    ensures Tiles(t, Compact(s), lo, hi)
  {
    if |s| > 1 {
      CompactFromTiles(t, s, 1, lo, hi);
    }
  }

  /** The compacted step list of the root covers `[0, total_minimal_size)`
      exactly, zone after zone; in particular every direct copy reads one
      contiguous byte range whose length is its `length`. */
  lemma StepListTiles(t: Tree)
    ensures SingleCopiesFrom(Generate(t, []), 0)
    ensures Tiles(t, Generate(t, []), 0, TotalMinimalSize(t))
    ensures Tiles(t, Compact(Generate(t, [])), 0, TotalMinimalSize(t))
  {
    GenerateTiles(t, []);
    RootOffset(t);
    GenerateSingleCopies(t, []);
    CompactTiles(t, Generate(t, []), 0, TotalMinimalSize(t));
  }
  /** Every step of a tiling names existing nodes. */
  lemma {:induction false} TilesStepOk(t: Tree, s: seq<Step>, lo: nat, hi: nat)
    requires Tiles(t, s, lo, hi)
    ensures forall x :: x in s ==> StepOk(t, x)
    decreases |s|
  {
    if |s| > 0 {
      TilesStepOk(t, s[1..], StepEnd(t, s[0]), hi);
      assert forall x :: x in s ==> x == s[0] || x in s[1..];
    }
  }

  /** Each direct copy copies one node of the tree, a memory-compatible one. */
  ghost predicate CopiesCompatible(t: Tree, s: seq<Step>)
  {
    forall x :: x in s && x.DirectCopy? ==>
      |x.nodes| == 1 && ValidPath(t, x.nodes[0]) && Sub(t, x.nodes[0]).facts.memoryCompatible
  }

  /** Generation emits a direct copy only for a memory-compatible primitive. */
  lemma {:induction false} GenerateCopiesCompatible(t: Tree, p: seq<nat>)
    requires ValidPath(t, p)
    ensures CopiesCompatible(t, Generate(Sub(t, p), p))
    decreases Sub(t, p), 1
  {
    var n := Sub(t, p);
    if !n.facts.primitive {
      GenerateChildrenCopiesCompatible(t, p, |n.children|);
    }
  }

  lemma {:induction false} GenerateChildrenCopiesCompatible(t: Tree, p: seq<nat>, k: nat)
    requires ValidPath(t, p) && !Sub(t, p).facts.primitive && k <= |Sub(t, p).children|
    ensures CopiesCompatible(t, GenerateChildren(Sub(t, p).children, p, k))
    decreases Sub(t, p), 0, k
  {
    if k > 0 {
      GenerateChildrenCopiesCompatible(t, p, k - 1);
      ChildSpan(t, p, k);
      GenerateCopiesCompatible(t, p + [k - 1]);
    }
  }
}
