/** The NBT binding's node facts: for a node of a given type at a given
    position (the root, a compound field with its name, or a list element),
    the sizes of its header (prepend), payload and footer (postpend), which
    of them are fixed, whether the payload's bytes can be copied as they
    are, and the node tree of a whole schema built from those facts. */
module NbtNode {
  import opened Wrappers
  import opened Paths
  import opened Nodes
  import opened NbtTags

  /** Where a node sits: the root (named tag with an empty name), a compound
      field (named tag with a name of `nameLength` bytes), or an element of a
      complex list (no name, no tag byte). */
  datatype Position = AtRoot | InCompound(nameLength: nat) | InList

  /** `prepend_minimal_size`: tag byte and name length (plus the name under a
      compound), then a list's element tag and length, or an array's length.
      Inside a list only the list header or the array length remains. */
  function PrependSize(t: Tag, pos: Position): nat
  {
    match pos
    case AtRoot =>
      if t.List? then 1 + 2 + 1 + 4
      else if IsArray(t) then 1 + 2 + 4
      else 1 + 2
    case InCompound(k) =>
      if t.List? then 1 + 2 + k + 1 + 4
      else if IsArray(t) then 1 + 2 + k + 4
      else 1 + 2 + k
    case InList =>
      if t.List? then 1 + 4
      else if IsArray(t) then 4
      else 0
  }

  /** `payload_minimal_size` of the binding: a scalar's width, an array's
      elements, a string's 2-byte length, a list's elements at their own
      minimal size; nothing for a complex or unrecognised type. */
  function PayloadSize(t: Tag): nat
  {
    if IsComplex(t) then 0
    else match t
      case Str => 2
      case List(e, n) => n * PayloadSize(e)
      case Other => 0
      case ByteArray(n) => n * ScalarWidth(ArrayElement(t))
      case IntArray(n) => n * ScalarWidth(ArrayElement(t))
      case LongArray(n) => n * ScalarWidth(ArrayElement(t))
      case Compound(_) => 0
      case _ => ScalarWidth(t)
  }

  /** `postpend_minimal_size`: a compound ends with one `TAG_End` byte. */
  function PostpendSize(t: Tag): nat
  {
    if t.Compound? then 1 else 0
  }

  /** `payload_fixed_size`: a string, or a list holding strings, has a
      payload longer than its minimum. */
  predicate PayloadFixed(t: Tag)
  {
    if IsComplex(t) then false
    else if t.Str? then false
    else if t.List? then PayloadFixed(t.elem)
    else true
  }

  /** `payload_memory_compatible`: with the wire byte order equal to the
      host's, scalars, arrays and lists of such are laid out in memory as
      on the wire. */
  predicate MemoryCompatible(t: Tag, opt: SerializeOption, native: Endian)
  {
    if IsComplex(t) then false
    else if opt.endian == native then
      if IsArithmetic(t) || IsArray(t) then true
      else if t.List? && MemoryCompatible(t.elem, opt, native) then true
      else false
    else false
  }

  /** A type that can be copied as raw memory is a simple one of fixed
      size, and only when the wire byte order is the host's. */
  lemma {:induction false} MemoryCompatibleIsFixed(t: Tag, opt: SerializeOption, native: Endian)
    ensures MemoryCompatible(t, opt, native) ==> opt.endian == native
    ensures MemoryCompatible(t, opt, native) ==> IsSimple(t) && PayloadFixed(t) && !t.Str?
  {
    if t.List? {
      MemoryCompatibleIsFixed(t.elem, opt, native);
    }
  }

  /** Under a foreign byte order nothing is memory compatible. */
  lemma ForeignOrderNeverCompatible(t: Tag, opt: SerializeOption, native: Endian)
    requires opt.endian != native
    ensures !MemoryCompatible(t, opt, native)
  {
    if !IsComplex(t) {
      assert opt.endian != native;
    }
  }

  /** The position of child `i` of a node of type `t`. */
  function ChildPosition(t: Tag, i: nat): Position
    requires i < Size(t)
  {
    if t.Compound? then InCompound(|t.fields[i].name|) else InList
  }

  /** The facts of the node of type `t` at position `pos`. */
  function Facts(t: Tag, pos: Position, opt: SerializeOption, native: Endian): (f: NodeFacts)
    ensures f.prependFixed && f.postpendFixed
    ensures f.primitive <==> IsSimple(t)
    ensures f.memoryCompatible ==> f.primitive && f.payloadFixed
    ensures f.primitive && !pos.InList? ==> f.prependMin >= 3
  {
    MemoryCompatibleIsFixed(t, opt, native);
    NodeFacts(
      primitive := IsSimple(t),
      prependFixed := true,
      prependMin := PrependSize(t, pos),
      payloadFixed := PayloadFixed(t),
      payloadMin := PayloadSize(t),
      postpendFixed := true,
      postpendMin := PostpendSize(t),
      memoryCompatible := MemoryCompatible(t, opt, native))
  }

  /** The node tree of a schema: one node per type, a compound's fields and
      a complex list's elements as children, nothing below a simple type. */
  function BuildTree(t: Tag, pos: Position, opt: SerializeOption, native: Endian): (r: Tree)
    ensures r.facts == Facts(t, pos, opt, native)
    ensures |r.children| == Size(t)
    decreases t
  {
    Tree(Facts(t, pos, opt, native),
         seq(Size(t), i requires 0 <= i < Size(t) => BuildTree(ChildTag(t, i), ChildPosition(t, i), opt, native)))
  }

  /** The position reached by a plain path from a node at `pos`. */
  function PositionAt(t: Tag, p: seq<nat>, pos: Position): Position
    requires TypeAt(t, p).Some?
    decreases |p|
  {
    if |p| == 0 then pos else PositionAt(ChildTag(t, p[0]), p[1..], ChildPosition(t, p[0]))
  }

  /** The schema's tree has a node exactly where the type lookup succeeds,
      and that node is the one built for the type and position found there. */
  lemma {:induction false} SubBuildTree(t: Tag, pos: Position, opt: SerializeOption, native: Endian, p: seq<nat>)
    ensures ValidPath(BuildTree(t, pos, opt, native), p) <==> TypeAt(t, p).Some?
    ensures TypeAt(t, p).Some? ==>
      Sub(BuildTree(t, pos, opt, native), p) == BuildTree(TypeAt(t, p).value, PositionAt(t, p, pos), opt, native)
    decreases |p|
  {
    if |p| > 0 && p[0] < Size(t) {
      SubBuildTree(ChildTag(t, p[0]), ChildPosition(t, p[0]), opt, native, p[1..]);
    }
  }

  /** A primitive node's payload minimum is the binding's payload size; a
      composite's payload has no size of its own in the binding. */
  lemma PayloadSizeBound(t: Tag, pos: Position, opt: SerializeOption, native: Endian)
    ensures PayloadSize(t) <= PayloadMinimalSize(BuildTree(t, pos, opt, native))
    ensures IsSimple(t) ==> PayloadSize(t) == PayloadMinimalSize(BuildTree(t, pos, opt, native))
  {
    Classification(t);
  }

  // ---------------------------------------------------------------------
  // The layout against the NBT format

  /** Every type in the schema is an NBT type and every simple list holds
      scalars or strings. */
  predicate Plain(t: Tag)
  {
    match t
    case Other => false
    case List(e, _) => Plain(e) && (IsSimple(t) ==> IsArithmetic(e) || e.Str?)
    case Compound(fs) => forall i :: 0 <= i < |fs| ==> Plain(fs[i].tag)
    case _ => true
  }

  /** Bytes of an NBT payload of type `t` in the format itself, every string
      empty: an array's 4-byte length and elements, a string's 2-byte
      length, a list's element tag byte, 4-byte length and elements, a
      compound's named tags (tag byte, 2-byte name length, name, payload)
      followed by `TAG_End`. */
  function WirePayload(t: Tag): nat
  {
    match t
    case Str => 2
    case List(e, n) => 1 + 4 + n * WirePayload(e)
    case Compound(fs) => NamedTags(fs, |fs|) + 1
    case Other => 0
    case ByteArray(n) => 4 + n * ScalarWidth(ArrayElement(t))
    case IntArray(n) => 4 + n * ScalarWidth(ArrayElement(t))
    case LongArray(n) => 4 + n * ScalarWidth(ArrayElement(t))
    case _ => ScalarWidth(t)
  }

  /** Bytes of the first `k` named tags of a compound. */
  function NamedTags(fs: seq<Field>, k: nat): nat
    requires k <= |fs|
  {
    if k == 0 then 0
    else
      assert fs[k - 1] in fs;
      NamedTags(fs, k - 1) + 1 + 2 + |fs[k - 1].name| + WirePayload(fs[k - 1].tag)
  }

  /** What a position adds in front of the payload in the format: a named
      tag's tag byte, name length and name; nothing for a list element. */
  function TagHeader(pos: Position): nat
  {
    match pos
    case AtRoot => 3
    case InCompound(k) => 3 + k
    case InList => 0
  }

  /** The binding's minimal size of a node is the size of its encoding in
      the NBT format with every string empty. */
  lemma {:induction false} TotalIsWireSize(t: Tag, pos: Position, opt: SerializeOption, native: Endian)
    requires Plain(t)
    ensures TotalMinimalSize(BuildTree(t, pos, opt, native)) == TagHeader(pos) + WirePayload(t)
    decreases t, 1
  {
    var r := BuildTree(t, pos, opt, native);
    Classification(t);
    match t
    case Compound(fs) =>
      ChildrenAreWireSize(t, opt, native, |fs|);
    case List(e, n) =>
      if IsSimple(t) {
        assert IsArithmetic(e) || e.Str?;
        assert PayloadSize(e) == WirePayload(e);
      } else {
        ChildrenAreWireSize(t, opt, native, n);
      }
    case _ =>
  }

  lemma {:induction false} ChildrenAreWireSize(t: Tag, opt: SerializeOption, native: Endian, k: nat)
    requires Plain(t) && IsComplex(t) && k <= Size(t)
    ensures t.Compound? ==> SumTotals(BuildTree(t, AtRoot, opt, native).children, k) == NamedTags(t.fields, k)
    ensures t.List? ==> SumTotals(BuildTree(t, AtRoot, opt, native).children, k) == k * WirePayload(t.elem)
    decreases t, 0, k, 1
  {
    if k > 0 {
      ChildrenAreWireSize(t, opt, native, k - 1);
      ChildIsWireSize(t, opt, native, k);
      if t.List? {
        assert k * WirePayload(t.elem) == (k - 1) * WirePayload(t.elem) + WirePayload(t.elem);
      }
    }
  }

  /** Child `k - 1` adds its header and its payload in the format. */
  lemma {:induction false} ChildIsWireSize(t: Tag, opt: SerializeOption, native: Endian, k: nat)
    requires Plain(t) && IsComplex(t) && 0 < k <= Size(t)
    ensures var cs := BuildTree(t, AtRoot, opt, native).children;
      SumTotals(cs, k) == SumTotals(cs, k - 1) + TagHeader(ChildPosition(t, k - 1)) + WirePayload(ChildTag(t, k - 1))
    decreases t, 0, k, 0
  {
    var cs := BuildTree(t, AtRoot, opt, native).children;
    var c := ChildTag(t, k - 1);
    assert Plain(c) by {
      if t.Compound? { assert t.fields[k - 1].tag == c; }
    }
    TotalIsWireSize(c, ChildPosition(t, k - 1), opt, native);
    assert cs[k - 1] == BuildTree(c, ChildPosition(t, k - 1), opt, native);
  }

  /** A simple list of arrays is laid out without each element's 4-byte
      length: one byte array of one byte in a list takes 9 bytes at the
      root, while the format needs 13. */
  lemma NestedArrayListGap(opt: SerializeOption, native: Endian)
    ensures TotalMinimalSize(BuildTree(List(ByteArray(1), 1), AtRoot, opt, native)) == 9
    ensures TagHeader(AtRoot) + WirePayload(List(ByteArray(1), 1)) == 13
  {
    var t := List(ByteArray(1), 1);
    assert IsSimple(t);
    assert PayloadSize(t) == 1;
  }

  /** A simple list of simple lists is laid out without each inner list's
      element tag byte and 4-byte length: one list holding one list of one
      byte takes 9 bytes at the root, while the format needs 14. */
  lemma NestedListGap(opt: SerializeOption, native: Endian)
    ensures TotalMinimalSize(BuildTree(List(List(Byte, 1), 1), AtRoot, opt, native)) == 9
    ensures TagHeader(AtRoot) + WirePayload(List(List(Byte, 1), 1)) == 14
  {
    var t := List(List(Byte, 1), 1);
    assert IsSimple(t);
    assert PayloadSize(List(Byte, 1)) == 1;
    assert PayloadSize(t) == 1;
  }
}
