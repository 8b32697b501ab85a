/** The step lists the generic pipeline produces for NBT schemas. Every
    primitive NBT node carries a header of at least three bytes, so a
    direct copy always follows the prepend step of its own node: no two
    direct copies are ever adjacent and compaction leaves the list as it is. */
module NbtSteps {
  import opened Wrappers
  import opened Paths
  import opened Nodes
  import opened Steps
  import opened NbtTags
  import opened NbtNode

  /** Each direct copy comes right after a prepend step. */
  predicate CopiesFollowPrepends(s: seq<Step>)
  {
    forall k :: 0 <= k < |s| && s[k].DirectCopy? ==> 0 < k && s[k - 1].Prepend?
  }

  lemma CopiesFollowPrependsAppend(a: seq<Step>, b: seq<Step>)
    requires CopiesFollowPrepends(a) && CopiesFollowPrepends(b)
    ensures CopiesFollowPrepends(a + b)
  {
    forall k | 0 <= k < |a + b| && (a + b)[k].DirectCopy?
      ensures 0 < k && (a + b)[k - 1].Prepend?
    {
      if k >= |a| {
        assert (a + b)[k] == b[k - |a|];
        assert (a + b)[k - 1] == b[k - 1 - |a|];
      } else {
        assert (a + b)[k] == a[k];
        assert (a + b)[k - 1] == a[k - 1];
      }
    }
  }

  lemma CopiesFollowPrependsAreApart(s: seq<Step>)
    requires CopiesFollowPrepends(s)
    ensures NoAdjacentCopies(s)
  {
  }

  /** The steps generated for an NBT node that is not a primitive list element. */
  lemma {:induction false} GenerateCopiesFollowPrepends(t: Tag, pos: Position, opt: SerializeOption, native: Endian, p: seq<nat>)
    requires IsSimple(t) ==> !pos.InList?
    ensures CopiesFollowPrepends(Generate(BuildTree(t, pos, opt, native), p))
    decreases t, 1
  {
    var n := BuildTree(t, pos, opt, native);
    var pre, post := PrependSteps(n, p), PostpendSteps(n, p);
    var body := if n.facts.primitive then PrimitivePayloadSteps(n, p) else GenerateChildren(n.children, p, |n.children|);
    if n.facts.primitive {
      assert pre == [Prepend(p)];
      var s := pre + body;
      assert CopiesFollowPrepends(s) by {
        forall k | 0 <= k < |s| && s[k].DirectCopy?
          ensures 0 < k && s[k - 1].Prepend?
        {
          assert s[0] == Prepend(p);
        }
      }
      CopiesFollowPrependsAppend(s, post);
    } else {
      ChildrenCopiesFollowPrepends(t, pos, opt, native, p, |n.children|);
      CopiesFollowPrependsAppend(pre, body);
      CopiesFollowPrependsAppend(pre + body, post);
    }
  }

  lemma {:induction false} ChildrenCopiesFollowPrepends(t: Tag, pos: Position, opt: SerializeOption, native: Endian, p: seq<nat>, k: nat)
    requires k <= Size(t)
    ensures CopiesFollowPrepends(GenerateChildren(BuildTree(t, pos, opt, native).children, p, k))
    decreases t, 0, k
  {
    var cs := BuildTree(t, pos, opt, native).children;
    if k > 0 {
      ChildrenCopiesFollowPrepends(t, pos, opt, native, p, k - 1);
      var c := ChildTag(t, k - 1);
      Classification(t);
      assert cs[k - 1] == BuildTree(c, ChildPosition(t, k - 1), opt, native);
      GenerateCopiesFollowPrepends(c, ChildPosition(t, k - 1), opt, native, p + [k - 1]);
      CopiesFollowPrependsAppend(GenerateChildren(cs, p, k - 1), Generate(cs[k - 1], p + [k - 1]));
    }
  }

  /** For an NBT schema, compaction changes nothing: the step list is the
      expansion of the generated list. */
  lemma NbtCompactIsIdentity(t: Tag, opt: SerializeOption, native: Endian)
    ensures NoAdjacentCopies(Generate(BuildTree(t, AtRoot, opt, native), []))
    ensures GenerateStepList(BuildTree(t, AtRoot, opt, native)) == Expand(Generate(BuildTree(t, AtRoot, opt, native), []))
  {
    var s := Generate(BuildTree(t, AtRoot, opt, native), []);
    GenerateCopiesFollowPrepends(t, AtRoot, opt, native, []);
    CopiesFollowPrependsAreApart(s);
    GenerateSingleCopies(BuildTree(t, AtRoot, opt, native), []);
    CompactIdentity(s);
  }

  /** With a wire byte order other than the host's, no node is copied raw:
      the generated list has no direct copy. */
  lemma {:induction false} ForeignOrderNoCopies(t: Tag, pos: Position, opt: SerializeOption, native: Endian, p: seq<nat>)
    requires opt.endian != native
    ensures forall k :: 0 <= k < |Generate(BuildTree(t, pos, opt, native), p)| ==>
      !Generate(BuildTree(t, pos, opt, native), p)[k].DirectCopy?
    decreases t, 1
  {
    var n := BuildTree(t, pos, opt, native);
    ForeignOrderNeverCompatible(t, opt, native);
    if !n.facts.primitive {
      ForeignOrderChildrenNoCopies(t, pos, opt, native, p, |n.children|);
    }
  }

  lemma {:induction false} ForeignOrderChildrenNoCopies(t: Tag, pos: Position, opt: SerializeOption, native: Endian, p: seq<nat>, k: nat)
    requires opt.endian != native && k <= Size(t)
    ensures forall j :: 0 <= j < |GenerateChildren(BuildTree(t, pos, opt, native).children, p, k)| ==>
      !GenerateChildren(BuildTree(t, pos, opt, native).children, p, k)[j].DirectCopy?
    decreases t, 0, k
  {
    var cs := BuildTree(t, pos, opt, native).children;
    if k > 0 {
      ForeignOrderChildrenNoCopies(t, pos, opt, native, p, k - 1);
      assert cs[k - 1] == BuildTree(ChildTag(t, k - 1), ChildPosition(t, k - 1), opt, native);
      ForeignOrderNoCopies(ChildTag(t, k - 1), ChildPosition(t, k - 1), opt, native, p + [k - 1]);
    }
  }
}
