/** Serialize steps: the ordered list of actions the driver runs, produced by
    a depth-first walk over the node tree (generate), then merging adjacent
    raw copies (compact), then folding a payload step with its own header and
    footer steps into one whole-node step (expand). */
module Steps {
  import opened Paths
  import opened Nodes

  /** `serialize_step` (prepend, payload, postpend, all) for one node, and
      `serialize_step_directcopy` for a run of nodes. Nodes are named by
      their path from the root. */
  datatype Step =
    | Prepend(node: seq<nat>)
    | Payload(node: seq<nat>)
    | Postpend(node: seq<nat>)
    | DirectCopy(nodes: seq<seq<nat>>)
    | All(node: seq<nat>)

  /** The prepend zone is statically empty: no prepend step is emitted. */
  predicate PrependOmitted(f: NodeFacts) { f.prependMin == 0 && f.prependFixed }

  /** The postpend zone is statically empty: no postpend step is emitted. */
  predicate PostpendOmitted(f: NodeFacts) { f.postpendMin == 0 && f.postpendFixed }

  /** A primitive node's payload is statically empty: no payload step is emitted. */
  predicate PayloadOmitted(n: Tree) { PayloadMinimalSize(n) == 0 && n.facts.payloadFixed }

  // ---------------------------------------------------------------------
  // Generate

  /** The prepend step of the node `n` at `p`, unless its prepend zone is statically empty. */
  function PrependSteps(n: Tree, p: seq<nat>): seq<Step>
  {
    if PrependOmitted(n.facts) then [] else [Prepend(p)]
  }

  /** The postpend step of the node `n` at `p`, unless its postpend zone is statically empty. */
  function PostpendSteps(n: Tree, p: seq<nat>): seq<Step>
  {
    if PostpendOmitted(n.facts) then [] else [Postpend(p)]
  }

  /** The payload contribution of a primitive node: nothing when statically
      empty, a one-node direct copy when memory-compatible, else a payload step. */
  function PrimitivePayloadSteps(n: Tree, p: seq<nat>): seq<Step>
  {
    if PayloadOmitted(n) then []
    else if n.facts.memoryCompatible then [DirectCopy([p])]
    else [Payload(p)]
  }

  /** `generate_serialize_step_list_generate` for the node `n` found at path `p`. */
  function Generate(n: Tree, p: seq<nat>): seq<Step>
    decreases n, 1
  {
    if n.facts.primitive then
      PrependSteps(n, p) + PrimitivePayloadSteps(n, p) + PostpendSteps(n, p)
    else
      PrependSteps(n, p) + GenerateChildren(n.children, p, |n.children|) + PostpendSteps(n, p)
  }

  /** The step lists of the first `k` children of the node at `p`, concatenated in index order. */
  function GenerateChildren(cs: seq<Tree>, p: seq<nat>, k: nat): seq<Step>
    requires k <= |cs|
    decreases cs, k
  {
    if k == 0 then [] else GenerateChildren(cs, p, k - 1) + Generate(cs[k - 1], p + [k - 1])
  }

  /** Child `k - 1`'s steps follow those of its elder siblings. */
  lemma GenerateChildrenNext(cs: seq<Tree>, p: seq<nat>, k: nat)
    requires 0 < k <= |cs|
    ensures GenerateChildren(cs, p, k) == GenerateChildren(cs, p, k - 1) + Generate(cs[k - 1], p + [k - 1])
  {
  }

  // ---------------------------------------------------------------------
  // Tuple edits

  /** `tuple_remove_at<Index>`: the list without its element at `k`. */
  function RemoveAt<T>(s: seq<T>, k: nat): (r: seq<T>)
    requires k < |s|
    ensures |r| == |s| - 1
    ensures forall i :: 0 <= i < k ==> r[i] == s[i]
    ensures forall i :: k <= i < |r| ==> r[i] == s[i + 1]
  {
    seq(k, i requires 0 <= i < k => s[i]) + seq(|s| - k - 1, j requires 0 <= j < |s| - k - 1 => s[j + k + 1])
  }

  /** `tuple_replace_at<Index>`: the list with its element at `k` replaced by `x`. */
  function ReplaceAt<T>(s: seq<T>, k: nat, x: T): (r: seq<T>)
    requires k < |s|
    ensures |r| == |s|
    ensures r[k] == x
    ensures forall i :: 0 <= i < |s| && i != k ==> r[i] == s[i]
  {
    seq(k, i requires 0 <= i < k => s[i]) + [x] + seq(|s| - k - 1, j requires 0 <= j < |s| - k - 1 => s[j + k + 1])
  }

  // ---------------------------------------------------------------------
  // Direct-copy length

  /** `serialize_step_directcopy::length`: the payload minimal sizes of the
      covered nodes, summed. */
  function Length(t: Tree, ns: seq<seq<nat>>): nat
    requires forall k :: 0 <= k < |ns| ==> ValidPath(t, ns[k])
  {
    if |ns| == 0 then 0
    else Length(t, ns[..|ns| - 1]) + PayloadMinimalSize(Sub(t, ns[|ns| - 1]))
  }

  /** A one-node copy covers that node's payload; merging one more node
      into a copy adds that node's payload size to the length. */
  lemma LengthAppend(t: Tree, ns: seq<seq<nat>>, m: seq<nat>)
    requires forall k :: 0 <= k < |ns| ==> ValidPath(t, ns[k])
    requires ValidPath(t, m)
    ensures Length(t, [m]) == PayloadMinimalSize(Sub(t, m))
    ensures Length(t, ns + [m]) == Length(t, ns) + PayloadMinimalSize(Sub(t, m))
  {
    assert (ns + [m])[..|ns|] == ns;
    assert [m][..0] == [];
  }

  // ---------------------------------------------------------------------
  // Compact

  predicate NoAdjacentCopies(s: seq<Step>)
  {
    forall k :: 0 < k < |s| ==> !(s[k - 1].DirectCopy? && s[k].DirectCopy?)
  }

  /** Every direct-copy step at position `i` or later covers exactly one node. */
  predicate SingleCopiesFrom(s: seq<Step>, i: nat)
  {
    forall k :: i <= k < |s| && s[k].DirectCopy? ==> |s[k].nodes| == 1
  }

  /** Each direct-copy step split into one single-node copy per covered node. */
  function Flatten(s: seq<Step>): seq<Step>
  {
    if |s| == 0 then []
    else
      var head := if s[0].DirectCopy? then seq(|s[0].nodes|, k requires 0 <= k < |s[0].nodes| => DirectCopy([s[0].nodes[k]]))
                  else [s[0]];
      head + Flatten(s[1..])
  }

  lemma {:induction false} FlattenAppend(a: seq<Step>, b: seq<Step>)
    ensures Flatten(a + b) == Flatten(a) + Flatten(b)
    decreases |a|
  {
    if |a| == 0 {
      assert a + b == b;
    } else {
      assert (a + b)[1..] == a[1..] + b;
      FlattenAppend(a[1..], b);
    }
  }

  /** Flattening a copy of `ns + [m]` gives the flattened copy of `ns` then the copy of `m`. */
  lemma FlattenMerge(ns: seq<seq<nat>>, m: seq<nat>)
    ensures Flatten([DirectCopy(ns + [m])]) == Flatten([DirectCopy(ns)]) + Flatten([DirectCopy([m])])
  {
    assert [DirectCopy(ns + [m])][1..] == [];
    assert [DirectCopy(ns)][1..] == [];
    assert [DirectCopy([m])][1..] == [];
  }

  /** The recursion of `generate_serialize_step_list_compact` as it is meant
      to run: at position `i`, merge the step at `i` into the direct copy at
      `i - 1` when both are direct copies and stay at `i`; otherwise move on. */
  function CompactFrom(s: seq<Step>, i: nat): (r: seq<Step>)
    requires 1 <= i <= |s|
    requires SingleCopiesFrom(s, i)
    requires NoAdjacentCopies(s[..i])
    ensures NoAdjacentCopies(r)
    ensures Flatten(r) == Flatten(s)
    ensures 1 <= |r| <= |s|
    ensures i - 1 <= |r| && r[..i - 1] == s[..i - 1]
    decreases |s| - i
  {
    if i == |s| then s
    else if s[i - 1].DirectCopy? && s[i].DirectCopy? then
      var removed := RemoveAt(ReplaceAt(s, i - 1, DirectCopy(s[i - 1].nodes + [s[i].nodes[0]])), i);
      MergeKeepsShape(s, i);
      CompactFrom(removed, i)
    else
      SkipKeepsShape(s, i);
      CompactFrom(s, i + 1)
  }

  /** One merge at `i` removes one step, keeps the steps before `i - 1` and
      the flattened list, and leaves the conditions for carrying on at `i`. */
  lemma MergeKeepsShape(s: seq<Step>, i: nat)
    requires 1 <= i < |s| && SingleCopiesFrom(s, i) && NoAdjacentCopies(s[..i])
    requires s[i - 1].DirectCopy? && s[i].DirectCopy?
    ensures var merged := DirectCopy(s[i - 1].nodes + [s[i].nodes[0]]);
      var removed := RemoveAt(ReplaceAt(s, i - 1, merged), i);
      && removed == s[..i - 1] + [merged] + s[i + 1..]
      && removed[..i - 1] == s[..i - 1]
      && SingleCopiesFrom(removed, i) && NoAdjacentCopies(removed[..i])
      && Flatten(removed) == Flatten(s)
  {
    var merged := DirectCopy(s[i - 1].nodes + [s[i].nodes[0]]);
    var removed := RemoveAt(ReplaceAt(s, i - 1, merged), i);
    assert removed == s[..i - 1] + [merged] + s[i + 1..];
    assert removed[..i] == s[..i - 1] + [merged];
    MergeFlattens(s, i);
  }

  /** Moving past a step that is not merged keeps the prefix free of adjacent copies. */
  lemma SkipKeepsShape(s: seq<Step>, i: nat)
    requires 1 <= i < |s| && NoAdjacentCopies(s[..i])
    requires !(s[i - 1].DirectCopy? && s[i].DirectCopy?)
    ensures NoAdjacentCopies(s[..i + 1])
  {
    assert s[..i + 1] == s[..i] + [s[i]];
  }

  lemma MergeFlattens(s: seq<Step>, i: nat)
    requires 1 <= i < |s| && s[i - 1].DirectCopy? && s[i].DirectCopy? && |s[i].nodes| == 1
    ensures Flatten(s[..i - 1] + [DirectCopy(s[i - 1].nodes + [s[i].nodes[0]])] + s[i + 1..]) == Flatten(s)
  {
    var a, b := s[i - 1], s[i];
    assert b == DirectCopy([b.nodes[0]]);
    assert s == s[..i - 1] + [a] + [b] + s[i + 1..];
    FlattenAppend(s[..i - 1] + [a] + [b], s[i + 1..]);
    FlattenAppend(s[..i - 1] + [a], [b]);
    FlattenAppend(s[..i - 1], [a]);
    var m := DirectCopy(a.nodes + [b.nodes[0]]);
    FlattenAppend(s[..i - 1] + [m], s[i + 1..]);
    FlattenAppend(s[..i - 1], [m]);
    FlattenMerge(a.nodes, b.nodes[0]);
  }

  /** `generate_serialize_step_list_compact`. */
  function Compact(s: seq<Step>): (r: seq<Step>)
    requires SingleCopiesFrom(s, 0)
    ensures NoAdjacentCopies(r)
    ensures Flatten(r) == Flatten(s)
    ensures |r| <= |s|
    ensures |s| <= 1 ==> r == s
  {
    if |s| <= 1 then s else CompactFrom(s, 1)
  }

  /** A list without two adjacent direct copies is left as it is. */
  lemma {:induction false} CompactFromIdentity(s: seq<Step>, i: nat)
    requires 1 <= i <= |s| && SingleCopiesFrom(s, i) && NoAdjacentCopies(s)
    ensures NoAdjacentCopies(s[..i])
    ensures CompactFrom(s, i) == s
    decreases |s| - i
  {
    if i < |s| {
      CompactFromIdentity(s, i + 1);
    }
  }

  lemma CompactIdentity(s: seq<Step>)
    requires SingleCopiesFrom(s, 0) && NoAdjacentCopies(s)
    ensures Compact(s) == s
  {
    if |s| > 1 {
      CompactFromIdentity(s, 1);
    }
  }

  /** One call of the compaction lambda as the source writes it: on two
      adjacent direct copies it builds the merged list but calls itself
      again with the list it was given and the same index; otherwise it
      moves on to the next index. */
  function CompactCallAsWritten(s: seq<Step>, i: nat): (seq<Step>, nat)
    requires 1 <= i < |s|
  {
    if s[i - 1].DirectCopy? && s[i].DirectCopy? then (s, i) else (s, i + 1)
  }

  /** Where the source's compaction recursion stands after `k` calls from
      list `s` and index `i` (it stops once the index reaches the end). */
  function CompactRunAsWritten(s: seq<Step>, i: nat, k: nat): (seq<Step>, nat)
    requires 1 <= i
    decreases k
  {
    if k == 0 || i >= |s| then (s, i)
    else
      var next := CompactCallAsWritten(s, i);
      CompactRunAsWritten(next.0, next.1, k - 1)
  }

  /** As written, the recursion never gets past two adjacent direct copies:
      however many calls are made, it is still at the same list and index,
      short of the end. */
  lemma {:induction false} CompactAsWrittenStalls(s: seq<Step>, i: nat, k: nat)
    requires 1 <= i < |s| && s[i - 1].DirectCopy? && s[i].DirectCopy?
    ensures CompactRunAsWritten(s, i, k) == (s, i)
    decreases k
  {
    if k > 0 {
      CompactAsWrittenStalls(s, i, k - 1);
    }
  }

  /** Two single-node copies side by side: the source's recursion never
      ends, while the intended compaction merges them into one copy. */
  lemma CompactMergeExample(k: nat)
    ensures CompactRunAsWritten([DirectCopy([[0]]), DirectCopy([[1]])], 1, k).1 < 2
    ensures Compact([DirectCopy([[0]]), DirectCopy([[1]])]) == [DirectCopy([[0], [1]])]
  {
    var s := [DirectCopy([[0]]), DirectCopy([[1]])];
    CompactAsWrittenStalls(s, 1, k);
    var merged := DirectCopy([[0]] + [[1]]);
    var removed := RemoveAt(ReplaceAt(s, 0, merged), 1);
    assert removed == [merged];
    assert [[0]] + [[1]] == [[0], [1]];
  }

  // ---------------------------------------------------------------------
  // Expand

  /** The recursion of `generate_serialize_step_list_expand` for lists of two
      or more steps: a payload step at `i` becomes `all`; a postpend step of
      the same node right after it is removed first, then a prepend step of
      the same node right before it. */
  function ExpandFrom(s: seq<Step>, i: nat): seq<Step>
    requires i <= |s|
    decreases |s| - i
  {
    if i == |s| then s
    else if !s[i].Payload? then ExpandFrom(s, i + 1)
    else
      var n := s[i].node;
      var withoutPostpend :=
        if i == |s| - 1 then s
        else if s[i + 1] == Postpend(n) then RemoveAt(s, i + 1)
        else s;
      var replaced := ReplaceAt(withoutPostpend, i, All(n));
      if i > 0 && replaced[i - 1] == Prepend(n) then ExpandFrom(RemoveAt(replaced, i - 1), i)
      else ExpandFrom(replaced, i + 1)
  }

  /** `generate_serialize_step_list_expand`. */
  function Expand(s: seq<Step>): seq<Step>
  {
    if |s| < 1 then s
    else if |s| == 1 then (if s[0].Payload? then [All(s[0].node)] else s)
    else ExpandFrom(s, 0)
  }

  /** Drop a postpend step of node `n` at the front of `s`. */
  function DropPostpend(s: seq<Step>, n: seq<nat>): (r: seq<Step>)
    ensures r == s || (|s| > 0 && s[0] == Postpend(n) && r == s[1..])
  {
    if |s| > 0 && s[0] == Postpend(n) then s[1..] else s
  }

  /** A reference definition of expansion, read left to right: a payload step
      (with the prepend step of its node just before it, if any) becomes one
      `all` step that also swallows the postpend step of its node just after it. */
  function ExpandRef(s: seq<Step>): seq<Step>
    decreases |s|
  {
    if |s| == 0 then []
    else if s[0].Payload? then [All(s[0].node)] + ExpandRef(DropPostpend(s[1..], s[0].node))
    else if |s| >= 2 && s[0].Prepend? && s[1] == Payload(s[0].node) then
      [All(s[0].node)] + ExpandRef(DropPostpend(s[2..], s[0].node))
    else [s[0]] + ExpandRef(s[1..])
  }

  /** Unfolding the reference expansion at a step it keeps. */
  lemma RefKeep(x: Step, rest: seq<Step>)
    requires !x.Payload? && !(x.Prepend? && |rest| > 0 && rest[0] == Payload(x.node))
    ensures ExpandRef([x] + rest) == [x] + ExpandRef(rest)
  {
    assert ([x] + rest)[1..] == rest;
  }

  /** Unfolding the reference expansion at a payload step. */
  lemma RefPayload(n: seq<nat>, rest: seq<Step>)
    ensures ExpandRef([Payload(n)] + rest) == [All(n)] + ExpandRef(DropPostpend(rest, n))
  {
    assert ([Payload(n)] + rest)[1..] == rest;
  }

  /** Unfolding the reference expansion at a prepend step followed by the payload step of its node. */
  lemma RefPrependPayload(n: seq<nat>, rest: seq<Step>)
    ensures ExpandRef([Prepend(n), Payload(n)] + rest) == [All(n)] + ExpandRef(DropPostpend(rest, n))
  {
    assert ([Prepend(n), Payload(n)] + rest)[2..] == rest;
  }

  /** The index recursion computes the reference expansion of what it has not yet passed. */
  lemma {:induction false} ExpandFromIsRef(s: seq<Step>, i: nat)
    requires i <= |s|
    requires i == 0 || !s[i - 1].Payload?
    ensures ExpandFrom(s, i) == s[..(if i == 0 then 0 else i - 1)] + ExpandRef(s[(if i == 0 then 0 else i - 1)..])
    decreases |s| - i, 2
  {
    var j := if i == 0 then 0 else i - 1;
    if i == |s| {
      if i > 0 {
        assert s[j..] == [s[j]] + [];
        RefKeep(s[j], []);
      }
    } else if !s[i].Payload? {
      ExpandFromIsRef(s, i + 1);
      if i > 0 {
        ShiftKept(s, j);
      }
    } else {
      ExpandPayloadStep(s, i);
    }
  }

  /** One step of the index recursion at a payload step, stated on plain slices. */
  lemma ExpandFromPayload(s: seq<Step>, i: nat)
    requires i < |s| && s[i].Payload?
    ensures var n := s[i].node;
            var rest := DropPostpend(s[i + 1..], n);
            ExpandFrom(s, i) ==
              if i > 0 && s[i - 1] == Prepend(n) then ExpandFrom(s[..i - 1] + [All(n)] + rest, i)
              else ExpandFrom(s[..i] + [All(n)] + rest, i + 1)
  {
    var n := s[i].node;
    var rest := DropPostpend(s[i + 1..], n);
    var withoutPostpend :=
      if i == |s| - 1 then s
      else if s[i + 1] == Postpend(n) then RemoveAt(s, i + 1)
      else s;
    var replaced := ReplaceAt(withoutPostpend, i, All(n));
    PayloadReplaced(s, i);
    if i > 0 && replaced[i - 1] == Prepend(n) {
      RemoveBefore(s[..i], All(n), rest);
      assert s[..i][..i - 1] == s[..i - 1];
    }
  }

  /** The payload step replaced by an `all` step, with the postpend step of
      its node just after it dropped. */
  lemma PayloadReplaced(s: seq<Step>, i: nat)
    requires i < |s| && s[i].Payload?
    ensures var n := s[i].node;
      var withoutPostpend :=
        if i == |s| - 1 then s
        else if s[i + 1] == Postpend(n) then RemoveAt(s, i + 1)
        else s;
      ReplaceAt(withoutPostpend, i, All(n)) == s[..i] + [All(n)] + DropPostpend(s[i + 1..], s[i].node)
  {
    var n := s[i].node;
    var rest := DropPostpend(s[i + 1..], n);
    var withoutPostpend :=
      if i == |s| - 1 then s
      else if s[i + 1] == Postpend(n) then RemoveAt(s, i + 1)
      else s;
    assert withoutPostpend == s[..i + 1] + rest;
    ReplaceAtSplit(withoutPostpend, i, All(n));
    assert withoutPostpend[..i] == s[..i];
    assert withoutPostpend[i + 1..] == rest;
  }

  /** Removing the element just before `x`. */
  lemma RemoveBefore<T>(a: seq<T>, x: T, r: seq<T>)
    requires |a| > 0
    ensures RemoveAt(a + [x] + r, |a| - 1) == a[..|a| - 1] + [x] + r
  {
    var s := a + [x] + r;
    var k := |a| - 1;
    assert RemoveAt(s, k) == s[..k] + s[k + 1..];
    assert s[..k] == a[..k];
    assert s[k + 1..] == [x] + r;
  }

  lemma ReplaceAtSplit<T>(s: seq<T>, k: nat, x: T)
    requires k < |s|
    ensures ReplaceAt(s, k, x) == s[..k] + [x] + s[k + 1..]
  {
  }

  /** The case of `ExpandFromIsRef` where position `i` holds a payload step. */
  lemma {:induction false} ExpandPayloadStep(s: seq<Step>, i: nat)
    requires i < |s| && s[i].Payload?
    requires i == 0 || !s[i - 1].Payload?
    ensures ExpandFrom(s, i) == s[..(if i == 0 then 0 else i - 1)] + ExpandRef(s[(if i == 0 then 0 else i - 1)..])
    decreases |s| - i, 1
  {
    var n := s[i].node;
    ExpandFromPayload(s, i);
    if i > 0 && s[i - 1] == Prepend(n) {
      ExpandMergesPrepend(s, i);
    } else {
      ExpandReplacesPayload(s, i);
    }
  }

  /** A kept step may be moved from the reference expansion into the finished prefix. */
  lemma ShiftKept(s: seq<Step>, j: nat)
    requires j + 1 < |s| && !s[j].Payload? && !(s[j].Prepend? && s[j + 1] == Payload(s[j].node))
    ensures s[..j + 1] + ExpandRef(s[j + 1..]) == s[..j] + ExpandRef(s[j..])
  {
    assert s[j..] == [s[j]] + s[j + 1..];
    RefKeep(s[j], s[j + 1..]);
    assert s[..j + 1] == s[..j] + [s[j]];
  }

  /** The sub-case where the payload step at `i` has no prepend step of its node before it. */
  lemma {:induction false} ExpandReplacesPayload(s: seq<Step>, i: nat)
    requires i < |s| && s[i].Payload?
    requires i == 0 || (!s[i - 1].Payload? && s[i - 1] != Prepend(s[i].node))
    ensures ExpandFrom(s[..i] + [All(s[i].node)] + DropPostpend(s[i + 1..], s[i].node), i + 1)
            == s[..(if i == 0 then 0 else i - 1)] + ExpandRef(s[(if i == 0 then 0 else i - 1)..])
    decreases |s| - i, 0
  {
    var n := s[i].node;
    var rest := DropPostpend(s[i + 1..], n);
    var replaced := s[..i] + [All(n)] + rest;
    calc {
      ExpandFrom(replaced, i + 1);
      == { ExpandFromIsRef(replaced, i + 1); }
      replaced[..i] + ExpandRef(replaced[i..]);
      == { assert replaced[..i] == s[..i]; assert replaced[i..] == [All(n)] + rest; }
      s[..i] + ExpandRef([All(n)] + rest);
      == { RefKeep(All(n), rest); }
      s[..i] + ([All(n)] + ExpandRef(rest));
      == { assert s[i..] == [Payload(n)] + s[i + 1..]; RefPayload(n, s[i + 1..]); }
      s[..i] + ExpandRef(s[i..]);
    }
    if i > 0 {
      ShiftKept(s, i - 1);
    }
  }

  /** The sub-case where the payload step at `i` follows its own node's prepend step. */
  lemma {:induction false} ExpandMergesPrepend(s: seq<Step>, i: nat)
    requires 0 < i < |s| && s[i].Payload? && s[i - 1] == Prepend(s[i].node)
    ensures ExpandFrom(s[..i - 1] + [All(s[i].node)] + DropPostpend(s[i + 1..], s[i].node), i)
            == s[..i - 1] + ExpandRef(s[i - 1..])
    decreases |s| - i - 1, 3
  {
    var j := i - 1;
    var n := s[i].node;
    var rest := DropPostpend(s[i + 1..], n);
    var removed := s[..j] + [All(n)] + rest;
    ExpandFromIsRef(removed, i);
    assert removed[..j] == s[..j];
    assert removed[j..] == [All(n)] + rest;
    RefKeep(All(n), rest);
    assert s[j..] == [Prepend(n), Payload(n)] + s[i + 1..];
    RefPrependPayload(n, s[i + 1..]);
  }

  /** Expansion, as the source writes it, agrees with the reference definition on every list. */
  lemma ExpandIsRef(s: seq<Step>)
    ensures Expand(s) == ExpandRef(s)
  {
    if |s| == 1 {
      assert s[1..] == [];
      if !s[0].Payload? {
        assert ExpandRef(s) == [s[0]] + ExpandRef(s[1..]);
      }
    } else if |s| > 1 {
      ExpandFromIsRef(s, 0);
    }
  }

  /** No payload step survives expansion, and expansion never lengthens a list. */
  lemma {:induction false} ExpandRefShape(s: seq<Step>)
    ensures forall k :: 0 <= k < |ExpandRef(s)| ==> !ExpandRef(s)[k].Payload?
    ensures |ExpandRef(s)| <= |s|
    decreases |s|
  {
    if |s| > 0 {
      if s[0].Payload? {
        ExpandRefShape(DropPostpend(s[1..], s[0].node));
      } else if |s| >= 2 && s[0].Prepend? && s[1] == Payload(s[0].node) {
        ExpandRefShape(DropPostpend(s[2..], s[0].node));
      } else {
        ExpandRefShape(s[1..]);
      }
    }
  }

  /** Every step of the expanded list is an unchanged non-payload step of the
      input or the `all` step of a node that had a payload step. */
  lemma {:induction false} ExpandRefOrigin(s: seq<Step>)
    ensures forall x :: x in ExpandRef(s) ==> (x in s && !x.Payload?) || (x.All? && Payload(x.node) in s)
    decreases |s|
  {
    if |s| > 0 {
      if s[0].Payload? {
        ExpandRefOrigin(DropPostpend(s[1..], s[0].node));
      } else if |s| >= 2 && s[0].Prepend? && s[1] == Payload(s[0].node) {
        ExpandRefOrigin(DropPostpend(s[2..], s[0].node));
      } else {
        ExpandRefOrigin(s[1..]);
      }
    }
  }

  /** Every step of the input survives expansion, except payload steps
      (replaced by `all` of the same node) and the prepend and postpend steps
      of a node that has a payload step. */
  lemma {:induction false} ExpandRefKeeps(s: seq<Step>)
    ensures forall x :: x in s ==>
      if x.Payload? then All(x.node) in ExpandRef(s)
      else x in ExpandRef(s) || ((x.Prepend? || x.Postpend?) && Payload(x.node) in s)
    decreases |s|
  {
    if |s| > 0 {
      if s[0].Payload? {
        var rest := DropPostpend(s[1..], s[0].node);
        ExpandRefKeeps(rest);
        assert forall x :: x in s ==> x == s[0] || x in rest || x == Postpend(s[0].node) by {
          forall x | x in s ensures x == s[0] || x in rest || x == Postpend(s[0].node) {
            var k :| 0 <= k < |s| && s[k] == x;
            if k > 0 {
              assert x in s[1..];
            }
          }
        }
      } else if |s| >= 2 && s[0].Prepend? && s[1] == Payload(s[0].node) {
        var rest := DropPostpend(s[2..], s[0].node);
        ExpandRefKeeps(rest);
        assert forall x :: x in s ==> x == s[0] || x == s[1] || x in rest || x == Postpend(s[0].node) by {
          forall x | x in s ensures x == s[0] || x == s[1] || x in rest || x == Postpend(s[0].node) {
            var k :| 0 <= k < |s| && s[k] == x;
            if k > 1 {
              assert x in s[2..];
            }
          }
        }
      } else {
        ExpandRefKeeps(s[1..]);
        assert forall x :: x in s ==> x == s[0] || x in s[1..] by {
          forall x | x in s ensures x == s[0] || x in s[1..] {
            var k :| 0 <= k < |s| && s[k] == x;
            if k > 0 {
              assert x == s[1..][k - 1];
            }
          }
        }
      }
    }
  }

  /** A list with no payload step is left unchanged by expansion. */
  lemma {:induction false} ExpandRefIdentity(s: seq<Step>)
    requires forall k :: 0 <= k < |s| ==> !s[k].Payload?
    ensures ExpandRef(s) == s
    decreases |s|
  {
    if |s| > 0 {
      ExpandRefIdentity(s[1..]);
    }
  }

  /** A lone payload step becomes a lone `all` step; a payload step framed by
      its own node's prepend and postpend steps collapses to one `all` step. */
  lemma ExpandCollapses(n: seq<nat>)
    ensures Expand([Payload(n)]) == [All(n)]
    ensures Expand([Prepend(n), Payload(n), Postpend(n)]) == [All(n)]
    ensures Expand([Prepend(n), Payload(n)]) == [All(n)]
  {
    ExpandIsRef([Prepend(n), Payload(n), Postpend(n)]);
    ExpandIsRef([Prepend(n), Payload(n)]);
    assert [Prepend(n), Payload(n), Postpend(n)][2..] == [Postpend(n)];
    assert [Prepend(n), Payload(n)][2..] == [];
  }

  // ---------------------------------------------------------------------
  // The whole pipeline

  /** `generate_serialize_step_list` for the root node of tree `t`. */
  function GenerateStepList(t: Tree): seq<Step>
  {
    GenerateSingleCopies(t, []);
    Expand(Compact(Generate(t, [])))
  }

  /** Generation emits only single-node direct copies. */
  lemma {:induction false} GenerateSingleCopies(n: Tree, p: seq<nat>)
    ensures SingleCopiesFrom(Generate(n, p), 0)
    decreases n, 1
  {
    if !n.facts.primitive {
      GenerateChildrenSingleCopies(n.children, p, |n.children|);
    }
  }

  lemma {:induction false} GenerateChildrenSingleCopies(cs: seq<Tree>, p: seq<nat>, k: nat)
    requires k <= |cs|
    ensures SingleCopiesFrom(GenerateChildren(cs, p, k), 0)
    decreases cs, k
  {
    if k > 0 {
      GenerateChildrenSingleCopies(cs, p, k - 1);
      GenerateSingleCopies(cs[k - 1], p + [k - 1]);
    }
  }

  /** The final step list contains no plain payload step (the driver rejects
      one statically) and is never longer than the generated list. */
  lemma StepListHasNoPayload(t: Tree)
    ensures forall k :: 0 <= k < |GenerateStepList(t)| ==> !GenerateStepList(t)[k].Payload?
    ensures |GenerateStepList(t)| <= |Generate(t, [])|
  {
    GenerateSingleCopies(t, []);
    var c := Compact(Generate(t, []));
    ExpandIsRef(c);
    ExpandRefShape(c);
  }
}
