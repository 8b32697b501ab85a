/** The NBT binding's view of a schema: the tag of every C++ type the
    binding accepts, how tags nest (compound fields, list elements), the
    simple/complex split that decides which nodes are primitive, and the
    type lookup along a node path, type guides included. */
module NbtTags {
  import opened Wrappers
  import opened Paths

  /** The C++ types of an NBT schema. Arrays and lists carry their
      compile-time length; a compound is a reflectable struct whose fields
      carry their declared names. `Other` is any type the binding does not
      recognise (its tag id is `tag_uncompatible`). */
  datatype Tag =
    | Byte
    | Short
    | Int
    | Long
    | Float
    | Double
    | ByteArray(n: nat)
    | Str
    | List(elem: Tag, n: nat)
    | Compound(fields: seq<Field>)
    | IntArray(n: nat)
    | LongArray(n: nat)
    | Other

  /** A field: its name as the UTF-8 bytes `boost::pfr::get_name` yields
      (whose `size()` is a byte count), and its type. */
  datatype Field = Field(name: seq<bv8>, tag: Tag)

  /** Byte order of the wire format, and of the host. */
  datatype Endian = Big | Little

  /** `na::nbt::option<E>`: the wire byte order, big-endian unless chosen otherwise. */
  datatype SerializeOption = SerializeOption(endian: Endian)

  const DefaultOption := SerializeOption(Big)

  /** Why a decode failed; the decoders of this binding never set it. */
  datatype NbtError = Ok | EndOfFile | Invalid

  /** `nbt_type_id`: the NBT tag byte of a type, 255 for an unrecognised one. */
  function TypeId(t: Tag): (id: nat)
    ensures id == 255 <==> t.Other?
    ensures 1 <= id <= 12 || id == 255
    ensures t.Byte? ==> id == 1
    ensures t.Short? ==> id == 2
    ensures t.Int? ==> id == 3
    ensures t.Long? ==> id == 4
    ensures t.Float? ==> id == 5
    ensures t.Double? ==> id == 6
    ensures t.ByteArray? ==> id == 7
    ensures t.Str? ==> id == 8
    ensures t.List? ==> id == 9
    ensures t.Compound? ==> id == 10
    ensures t.IntArray? ==> id == 11
    ensures t.LongArray? ==> id == 12
  {
    match t
    case Byte => 1
    case Short => 2
    case Int => 3
    case Long => 4
    case Float => 5
    case Double => 6
    case ByteArray(_) => 7
    case Str => 8
    case List(_, _) => 9
    case Compound(_) => 10
    case IntArray(_) => 11
    case LongArray(_) => 12
    case Other => 255
  }

  /** The tag byte decides the kind of type: two types with the same id are
      of the same kind (their lengths and fields aside). */
  lemma TypeIdDecidesKind(a: Tag, b: Tag)
    requires TypeId(a) == TypeId(b)
    ensures a.Byte? == b.Byte? && a.Short? == b.Short? && a.Int? == b.Int? && a.Long? == b.Long?
    ensures a.Float? == b.Float? && a.Double? == b.Double? && a.Str? == b.Str? && a.Other? == b.Other?
    ensures a.ByteArray? == b.ByteArray? && a.IntArray? == b.IntArray? && a.LongArray? == b.LongArray?
    ensures a.List? == b.List? && a.Compound? == b.Compound?
  {
  }

  /** `any_nbt`. */
  predicate IsNbt(t: Tag) { TypeId(t) != 255 }

  /** `std::is_arithmetic_v` restricted to the NBT scalar types. */
  predicate IsArithmetic(t: Tag) { t.Byte? || t.Short? || t.Int? || t.Long? || t.Float? || t.Double? }

  /** `any_nbt_array`. */
  predicate IsArray(t: Tag) { t.ByteArray? || t.IntArray? || t.LongArray? }

  /** `sizeof` of a scalar type. */
  function ScalarWidth(t: Tag): (w: nat)
    requires IsArithmetic(t)
    ensures w == 1 || w == 2 || w == 4 || w == 8
    ensures w == 1 <==> t.Byte?
    ensures w == 2 <==> t.Short?
    ensures w == 4 <==> t.Int? || t.Float?
    ensures w == 8 <==> t.Long? || t.Double?
  {
    match t
    case Byte => 1
    case Short => 2
    case Int => 4
    case Float => 4
    case Long => 8
    case Double => 8
  }

  /** The element type of an NBT array: byte, int or long. */
  function ArrayElement(t: Tag): (e: Tag)
    requires IsArray(t)
    ensures IsArithmetic(e) && !e.Short? && !e.Float? && !e.Double?
    ensures t.ByteArray? ==> e == Byte
    ensures t.IntArray? ==> e == Int
    ensures t.LongArray? ==> e == Long
  {
    match t
    case ByteArray(_) => Byte
    case IntArray(_) => Int
    case LongArray(_) => Long
  }

  /** `is_simple_nbt_impl`: scalars, arrays and strings are simple, a list
      is simple when its element type is, a compound never is. */
  predicate IsSimple(t: Tag)
  {
    match t
    case List(e, _) => IsSimple(e)
    case Compound(_) => false
    case Other => false
    case _ => true
  }

  /** `any_complex_nbt`: an NBT type that is not simple. */
  predicate IsComplex(t: Tag) { IsNbt(t) && !IsSimple(t) }

  /** Simple, complex and unrecognised partition the types; complex types
      are exactly compounds and lists of complex elements. */
  lemma {:induction false} Classification(t: Tag)
    ensures IsSimple(t) ==> IsNbt(t)
    ensures IsComplex(t) <==> (t.Compound? || (t.List? && !IsSimple(t.elem)))
    ensures WellFormed(t) && t.List? ==> (IsComplex(t) <==> IsComplex(t.elem))
    ensures IsSimple(t) || IsComplex(t) || t.Other?
    ensures !(IsSimple(t) && IsComplex(t))
  {
    if t.List? {
      Classification(t.elem);
    }
  }

  /** A list's element type is itself an NBT type (`nbt_list` requires `any_nbt`). */
  predicate WellFormed(t: Tag)
  {
    match t
    case List(e, _) => !e.Other? && WellFormed(e)
    case Compound(fs) => forall i :: 0 <= i < |fs| ==> WellFormed(fs[i].tag)
    case _ => true
  }

  /** `size`: the number of child nodes — a compound's field count, a
      complex list's length, and nothing for every other type. */
  function Size(t: Tag): (n: nat)
    ensures n > 0 ==> IsComplex(t)
    ensures t.Compound? ==> n == |t.fields|
    ensures t.List? && IsComplex(t) ==> n == t.n
    ensures IsSimple(t) || t.Other? ==> n == 0
  {
    if t.Compound? then |t.fields|
    else if t.List? && IsComplex(t) then t.n
    else 0
  }

  /** The type of child `i`: a compound's field, or the list's element type. */
  function ChildTag(t: Tag, i: nat): (c: Tag)
    requires i < Size(t)
    ensures c < t
  {
    if t.Compound? then
      assert t.fields[i] in t.fields;
      t.fields[i].tag
    else t.elem
  }

  /** `type_impl_at`: the type reached by following `path` from a node of
      type `t`. A guide overrides the lookup for its step (the index is then
      not checked); otherwise the step must be a field of a compound or an
      element of a list within its length. `None` is a compile-time error
      ("nbt_index out of range", or indexing into a non-container). */
  function Resolve(t: Tag, path: seq<NodeIndex<Tag>>): Option<Tag>
    decreases |path|
  {
    if |path| == 0 then Some(t)
    else
      var now := path[0];
      if now.HasGuide() then Resolve(now.guide.value, path[1..])
      else if t.Compound? then
        if now.index < |t.fields| then Resolve(t.fields[now.index].tag, path[1..]) else None
      else if t.List? then
        if now.index < t.n then Resolve(t.elem, path[1..]) else None
      else None
  }

  /** The indices of a plain path, none of them guided (what `at<Is...>` builds). */
  function Unguided(p: seq<nat>): (r: seq<NodeIndex<Tag>>)
    ensures |r| == |p|
    ensures forall k :: 0 <= k < |p| ==> r[k] == NodeIndex(p[k], None)
  {
    seq(|p|, k requires 0 <= k < |p| => NodeIndex(p[k], None))
  }

  /** The type at a plain path, walking children as `size` counts them. */
  function TypeAt(t: Tag, p: seq<nat>): Option<Tag>
    decreases |p|
  {
    if |p| == 0 then Some(t)
    else if p[0] < Size(t) then TypeAt(ChildTag(t, p[0]), p[1..])
    else None
  }

  /** Along paths that stay within the children the pipeline visits, the
      guide-free lookup of `type_impl_at` finds the same type. */
  lemma {:induction false} ResolveUnguided(t: Tag, p: seq<nat>)
    requires TypeAt(t, p).Some?
    ensures Resolve(t, Unguided(p)) == TypeAt(t, p)
    decreases |p|
  {
    if |p| > 0 {
      assert Unguided(p)[1..] == Unguided(p[1..]);
      ResolveUnguided(ChildTag(t, p[0]), p[1..]);
    }
  }

  /** A guide on the last step decides the node's type outright, whatever
      the schema says there, provided the steps before it resolve. */
  lemma {:induction false} GuideOverrides(t: Tag, path: seq<NodeIndex<Tag>>, i: nat, g: Tag)
    requires Resolve(t, path).Some?
    ensures Resolve(t, path + [NodeIndex(i, Some(g))]) == Some(g)
    decreases |path|
  {
    var last := NodeIndex(i, Some(g));
    if |path| == 0 {
      assert [last][1..] == [];
    } else {
      assert (path + [last])[1..] == path[1..] + [last];
      var now := path[0];
      if now.HasGuide() {
        GuideOverrides(now.guide.value, path[1..], i, g);
      } else if t.Compound? {
        GuideOverrides(t.fields[now.index].tag, path[1..], i, g);
      } else {
        GuideOverrides(t.elem, path[1..], i, g);
      }
    }
  }

  /** An unguided step past a compound's last field, or into a scalar, does not resolve. */
  lemma ResolveOutOfRange(t: Tag, i: nat)
    requires (t.Compound? && i >= |t.fields|) || (t.List? && i >= t.n) || IsArithmetic(t) || t.Str?
    ensures Resolve(t, [NodeIndex(i, None)]) == None
  {
  }

  /** A sub-type reached by a plain path is a part of the schema. */
  lemma {:induction false} TypeAtIsPart(t: Tag, p: seq<nat>)
    requires TypeAt(t, p).Some?
    ensures TypeAt(t, p).value == t || TypeAt(t, p).value < t
    decreases |p|
  {
    if |p| > 0 {
      TypeAtIsPart(ChildTag(t, p[0]), p[1..]);
    }
  }
}
