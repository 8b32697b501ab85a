/** Node indices and node paths: the address of a node inside a schema,
    as an ordered list of child indices counted from the root. */
module Paths {
  import opened Wrappers

  /** One step of a path: a child index, optionally with a type guide that
      overrides the schema lookup at that step. */
  datatype NodeIndex<G> = NodeIndex(index: nat, guide: Option<G>)
  {
    predicate HasGuide() { guide.Some? }
  }

  /** `at<I>`: the I-th index of a path. */
  function At<I>(p: seq<I>, i: nat): (r: I)
    requires i < |p|
    ensures r == p[i] && r in p
  {
    p[i]
  }

  /** `append<Is...>`: the indices `extra` added after the path's own. */
  function Append<I>(p: seq<I>, extra: seq<I>): (r: seq<I>)
    ensures |r| == |p| + |extra|
    ensures forall k :: 0 <= k < |p| ==> r[k] == p[k]
    ensures forall k :: 0 <= k < |extra| ==> r[|p| + k] == extra[k]
  {
    p + extra
  }

  /** `prepend<Is...>`: the indices `extra` put before the path's own. */
  function Prepend<I>(p: seq<I>, extra: seq<I>): (r: seq<I>)
    ensures |r| == |extra| + |p|
    ensures forall k :: 0 <= k < |extra| ==> r[k] == extra[k]
    ensures forall k :: 0 <= k < |p| ==> r[|extra| + k] == p[k]
  {
    extra + p
  }

  /** `take_first_n<K>`: the path made of `at<0>` ... `at<K-1>`. */
  function TakeFirstN<I>(p: seq<I>, k: nat): (r: seq<I>)
    requires k <= |p|
    ensures |r| == k
    ensures forall i :: 0 <= i < k ==> r[i] == p[i]
  {
    seq(k, i requires 0 <= i < k => At(p, i))
  }

  /** `path_last`: the last index of a non-empty path. */
  function Last<I>(p: seq<I>): (r: I)
    requires |p| > 0
    ensures r == p[|p| - 1]
  {
    At(p, |p| - 1)
  }

  /** The path of `node_parent`: the path with its last index dropped. */
  function Parent<I>(p: seq<I>): (r: seq<I>)
    requires |p| > 0
    ensures |r| == |p| - 1 < |p|
  {
    TakeFirstN(p, |p| - 1)
  }

  /** `take_first_n<K>` is exactly the prefix of length K. */
  lemma TakeFirstNIsPrefix<I>(p: seq<I>, k: nat)
    requires k <= |p|
    ensures TakeFirstN(p, k) == p[..k]
    ensures Append(TakeFirstN(p, k), p[k..]) == p
  {
    assert TakeFirstN(p, k) == p[..k];
  }

  /** A parent path extended by the child's last index gives back the child. */
  lemma ParentThenLast<I>(p: seq<I>)
    requires |p| > 0
    ensures Append(Parent(p), [Last(p)]) == p
  {
    TakeFirstNIsPrefix(p, |p| - 1);
  }

  /** The parent of a child path `p + [i]` is `p`, and its last index is `i`. */
  lemma ParentOfChild<I>(p: seq<I>, i: I)
    ensures Parent(Append(p, [i])) == p && Last(Append(p, [i])) == i
  {
    TakeFirstNIsPrefix(p + [i], |p|);
    assert (p + [i])[..|p|] == p;
  }

  /** Walking from a path to the root through `node_parent` takes exactly
      as many steps as the path has indices. */
  function DepthToRoot<I>(p: seq<I>): (n: nat)
    ensures n == |p|
    decreases |p|
  {
    if |p| == 0 then 0 else 1 + DepthToRoot(Parent(p))
  }

  /** Taking a prefix of a prefix is taking the shorter prefix. */
  lemma TakeFirstNTwice<I>(p: seq<I>, k: nat, j: nat)
    requires j <= k <= |p|
    ensures TakeFirstN(TakeFirstN(p, k), j) == TakeFirstN(p, j)
  {
  }
}
