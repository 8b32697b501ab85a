/** The C++ object being filled in, as a value: a scalar is its bytes in
    host memory order, a string is a view (start and length) into the
    input buffer, and arrays, lists and compounds are their elements in
    order. `payload_reference` finds the sub-object a node stands for. */
module NbtValues {
  import opened Wrappers
  import opened NbtTags
  import opened NbtNode

  datatype Value =
    | Bytes(mem: seq<bv8>)
    | Text(start: nat, len: nat)
    | Items(items: seq<Value>)

  /** The value has the layout of a C++ object of type `t`. */
  ghost predicate Shaped(v: Value, t: Tag)
    decreases t
  {
    match t
    case Str => v.Text?
    case List(e, n) => v.Items? && |v.items| == n && forall i :: 0 <= i < n ==> Shaped(v.items[i], e)
    case Compound(fs) =>
      v.Items? && |v.items| == |fs| && forall i :: 0 <= i < |fs| ==> Shaped(v.items[i], ChildTag(t, i))
    case Other => true
    case ByteArray(n) => ArrayShaped(v, t)
    case IntArray(n) => ArrayShaped(v, t)
    case LongArray(n) => ArrayShaped(v, t)
    case _ => v.Bytes? && |v.mem| == ScalarWidth(t)
  }

  ghost predicate ArrayShaped(v: Value, t: Tag)
    requires IsArray(t)
  {
    v.Items? && |v.items| == t.n &&
    forall i :: 0 <= i < t.n ==> v.items[i].Bytes? && |v.items[i].mem| == ScalarWidth(ArrayElement(t))
  }

  /** `payload_reference`: the sub-object at path `p` of an object of type
      `t` — the object itself for the root, otherwise a field or element of
      a complex object, then recursively. */
  function PayloadRef(v: Value, t: Tag, p: seq<nat>): Option<Value>
    decreases |p|
  {
    if |p| == 0 then Some(v)
    else if IsComplex(t) && v.Items? && p[0] < Size(t) && p[0] < |v.items| then
      PayloadRef(v.items[p[0]], ChildTag(t, p[0]), p[1..])
    else None
  }

  /** The object with its sub-object at `p` replaced by `x`. */
  function WithPayload(v: Value, t: Tag, p: seq<nat>, x: Value): Value
    requires PayloadRef(v, t, p).Some?
    decreases |p|
  {
    if |p| == 0 then x
    else Items(v.items[p[0] := WithPayload(v.items[p[0]], ChildTag(t, p[0]), p[1..], x)])
  }

  /** A well-shaped object has a sub-object at every path of its type, of
      the type found there. */
  lemma {:induction false} PayloadRefShaped(v: Value, t: Tag, p: seq<nat>)
    requires Shaped(v, t) && TypeAt(t, p).Some?
    ensures PayloadRef(v, t, p).Some? && Shaped(PayloadRef(v, t, p).value, TypeAt(t, p).value)
    decreases |p|
  {
    if |p| > 0 {
      Classification(t);
      assert v.items[p[0]] == v.items[p[0]];
      PayloadRefShaped(v.items[p[0]], ChildTag(t, p[0]), p[1..]);
    }
  }

  /** After the replacement, the reference at `p` is the new sub-object. */
  lemma {:induction false} WithPayloadGet(v: Value, t: Tag, p: seq<nat>, x: Value)
    requires PayloadRef(v, t, p).Some?
    ensures PayloadRef(WithPayload(v, t, p, x), t, p) == Some(x)
    decreases |p|
  {
    if |p| > 0 {
      WithPayloadGet(v.items[p[0]], ChildTag(t, p[0]), p[1..], x);
    }
  }

  /** Neither path is an initial part of the other. */
  predicate Apart(p: seq<nat>, q: seq<nat>)
  {
    exists k :: 0 <= k < |p| && k < |q| && p[k] != q[k] && p[..k] == q[..k]
  }

  /** Replacing the sub-object at `p` leaves every sub-object apart from it unchanged. */
  lemma {:induction false} WithPayloadFrame(v: Value, t: Tag, p: seq<nat>, q: seq<nat>, x: Value)
    requires PayloadRef(v, t, p).Some? && PayloadRef(v, t, q).Some?
    requires Apart(p, q)
    ensures PayloadRef(WithPayload(v, t, p, x), t, q) == PayloadRef(v, t, q)
    decreases |p|
  {
    var k :| 0 <= k < |p| && k < |q| && p[k] != q[k] && p[..k] == q[..k];
    assert p[0] == p[..k + 1][0];
    if k > 0 {
      assert p[0] == p[..k][0] == q[..k][0] == q[0];
      assert p[1..][k - 1] != q[1..][k - 1] && p[1..][..k - 1] == q[1..][..k - 1];
      WithPayloadFrame(v.items[p[0]], ChildTag(t, p[0]), p[1..], q[1..], x);
    }
  }

  /** Replacing a sub-object by one of the right type keeps the object well shaped. */
  lemma {:induction false} WithPayloadShaped(v: Value, t: Tag, p: seq<nat>, x: Value)
    requires Shaped(v, t) && TypeAt(t, p).Some? && Shaped(x, TypeAt(t, p).value)
    ensures PayloadRef(v, t, p).Some?
    ensures Shaped(WithPayload(v, t, p, x), t)
    decreases |p|
  {
    PayloadRefShaped(v, t, p);
    if |p| > 0 {
      Classification(t);
      WithPayloadShaped(v.items[p[0]], ChildTag(t, p[0]), p[1..], x);
      var w := WithPayload(v, t, p, x);
      if t.Compound? {
        assert forall i :: 0 <= i < |t.fields| ==> Shaped(w.items[i], ChildTag(t, i));
      } else {
        assert forall i :: 0 <= i < t.n ==> Shaped(w.items[i], t.elem);
      }
    }
  }

  // ---------------------------------------------------------------------
  // Raw memory

  lemma ChunkFits(i: nat, n: nat, w: nat)
    requires i < n
    ensures i * w + w <= n * w
  {
    assert (i + 1) * w <= n * w by {
      if w > 0 {
        assert i + 1 <= n;
      }
    }
  }

  /** Where chunk `i` of a run of `w`-byte chunks starts: `i` advances of `w` bytes. */
  function ChunkStart(i: nat, w: nat): nat
  {
    if i == 0 then 0 else ChunkStart(i - 1, w) + w
  }

  lemma {:induction false} ChunkStartIsProduct(i: nat, w: nat)
    ensures ChunkStart(i, w) == i * w
  {
    if i > 0 {
      ChunkStartIsProduct(i - 1, w);
      assert i * w == (i - 1) * w + w;
    }
  }

  /** The `i`-th of `n` chunks of `w` bytes. */
  function Chunk(mem: seq<bv8>, i: nat, n: nat, w: nat): (c: seq<bv8>)
    requires i < n && |mem| == n * w
    ensures |c| == w
  {
    ChunkStartIsProduct(i, w);
    ChunkFits(i, n, w);
    mem[ChunkStart(i, w) .. ChunkStart(i, w) + w]
  }

  /** The object whose memory holds the bytes `mem` (what a `memcpy` into it
      produces): a scalar holds them, an array or a list holds one chunk per
      element. */
  function FromMemory(t: Tag, mem: seq<bv8>): Value
    requires |mem| == PayloadSize(t)
    decreases t
  {
    match t
    case ByteArray(n) => Items(seq(n, i requires 0 <= i < n => Bytes(Chunk(mem, i, n, 1))))
    case IntArray(n) => Items(seq(n, i requires 0 <= i < n => Bytes(Chunk(mem, i, n, 4))))
    case LongArray(n) => Items(seq(n, i requires 0 <= i < n => Bytes(Chunk(mem, i, n, 8))))
    case List(e, n) =>
      if IsSimple(t) then Items(seq(n, i requires 0 <= i < n => FromMemory(e, Chunk(mem, i, n, PayloadSize(e)))))
      else Bytes(mem)
    case _ => Bytes(mem)
  }

  /** Copying the bytes of a memory-compatible type gives an object of that type. */
  lemma {:induction false} FromMemoryShaped(t: Tag, mem: seq<bv8>, opt: SerializeOption, native: Endian)
    requires MemoryCompatible(t, opt, native) && |mem| == PayloadSize(t)
    ensures Shaped(FromMemory(t, mem), t)
    decreases t
  {
    MemoryCompatibleIsFixed(t, opt, native);
    if t.List? {
      var v := FromMemory(t, mem);
      forall i | 0 <= i < t.n
        ensures Shaped(v.items[i], t.elem)
      {
        FromMemoryShaped(t.elem, Chunk(mem, i, t.n, PayloadSize(t.elem)), opt, native);
      }
    }
  }

  // ---------------------------------------------------------------------
  // payload_extra_size

  /** The bytes a payload takes beyond its minimal size when serialized: a
      string's length, and for a list of strings (possibly nested) the sum
      of its strings' lengths; nothing for a fixed-size or complex payload. */
  function PayloadExtraSize(v: Value, t: Tag): nat
    decreases t, 0
  {
    if IsComplex(t) then 0
    else if PayloadFixed(t) then 0
    else if t.Str? then (if v.Text? then v.len else 0)
    else if t.List? && v.Items? then ExtraFrom(v.items, t.elem, 0)
    else 0
  }

  /** The extra sizes of `vs[i..]`, elements of type `e`. */
  function ExtraFrom(vs: seq<Value>, e: Tag, i: nat): nat
    decreases e, 1, |vs| - i
  {
    if i >= |vs| then 0 else PayloadExtraSize(vs[i], e) + ExtraFrom(vs, e, i + 1)
  }

  /** `payload_extra_size` as the source has it: the list branch's lambda
      sums its elements but has no `return` on that path, so a list of
      strings yields no defined value. */
  function PayloadExtraSizeAsWritten(v: Value, t: Tag): Option<nat>
  {
    if IsComplex(t) then Some(0)
    else if PayloadFixed(t) then Some(0)
    else if t.Str? then Some(if v.Text? then v.len else 0)
    else None
  }

  /** The source and the corrected definition agree on everything but lists
      of strings, where the source has no value: for two strings of lengths
      1 and 2 the extra size is 3. */
  lemma ExtraSizeListExample()
    ensures PayloadExtraSizeAsWritten(Items([Text(5, 1), Text(8, 2)]), List(Str, 2)) == None
    ensures PayloadExtraSize(Items([Text(5, 1), Text(8, 2)]), List(Str, 2)) == 3
  {
    var vs := [Text(5, 1), Text(8, 2)];
    assert ExtraFrom(vs, Str, 2) == 0;
    assert ExtraFrom(vs, Str, 1) == 2;
  }

  lemma ExtraSizeAgrees(v: Value, t: Tag)
    requires !t.List?
    ensures PayloadExtraSizeAsWritten(v, t) == Some(PayloadExtraSize(v, t))
  {
  }

  /** A payload of fixed size never has extra bytes. */
  lemma FixedHasNoExtra(v: Value, t: Tag)
    requires PayloadFixed(t)
    ensures PayloadExtraSize(v, t) == 0
  {
  }
}
