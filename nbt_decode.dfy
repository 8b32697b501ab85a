/** `deserialize_all` of the NBT binding: decoding the payload of one
    primitive node from the input buffer. Scalars and array elements are
    read with `endian_get`; a string reads its 2-byte length, consumes that
    many extra bytes (moving the running offset) and becomes a view into
    the buffer; a list of strings does so element after element. */
module NbtDecode {
  import opened Wrappers
  import opened NbtTags
  import opened NbtNode
  import opened NbtValues
  import opened ByteOrder

  /** What one decode leaves behind: success, the running offset, and the
      (possibly partly) updated object. */
  datatype Outcome = Outcome(ok: bool, offset: nat, value: Value)

  /** The schemas whose decoding the source defines: list elements are NBT
      types, and a simple list holds scalars, strings, or (with the host's
      byte order) memory-compatible elements that are read as raw memory. */
  predicate Supported(t: Tag, opt: SerializeOption, native: Endian)
  {
    match t
    case List(e, _) =>
      !e.Other? && Supported(e, opt, native) &&
      (IsSimple(t) && !IsArithmetic(e) && !e.Str? ==> MemoryCompatible(e, opt, native))
    case Compound(fs) => forall i :: 0 <= i < |fs| ==> Supported(ChildTag(t, i), opt, native)
    case _ => true
  }

  /** The two kinds of simple list left out: a list of arrays or of simple
      lists under a foreign byte order, and a list of lists of strings under
      any order. A list of scalar lists is in exactly when the byte order
      is the host's. */
  lemma SupportedExcludes(opt: SerializeOption, native: Endian)
    ensures Supported(List(ByteArray(1), 1), opt, native) <==> opt.endian == native
    ensures Supported(List(List(Byte, 1), 1), opt, native) <==> opt.endian == native
    ensures !Supported(List(List(Str, 1), 1), opt, native)
  {
  }

  /** The payload of a node of type `t` whose minimal payload offset is
      `base` lies inside the buffer, whatever offset not beyond `reversed`
      the earlier strings have added. */
  predicate Fits(t: Tag, buf: seq<bv8>, base: nat, offset: nat, reversed: nat)
  {
    offset <= reversed && base + PayloadSize(t) + reversed <= |buf|
  }

  /** `endian_get<std::uint16_t>`: a string length, the 16-bit number its
      two bytes denote in the wire order, whatever the host's order
      (`ReadLengthIsEndianGet`). */
  function ReadLength(buf: seq<bv8>, at: nat, opt: SerializeOption): (n: nat)
    requires at + 2 <= |buf|
    ensures n < 65536
  {
    if opt.endian == Big then buf[at] as nat * 256 + buf[at + 1] as nat
    else buf[at + 1] as nat * 256 + buf[at] as nat
  }

  /** The length is what `endian_get` leaves in a host `uint16_t`, read in
      the host's order, and the number the two bytes denote in the wire order. */
  lemma ReadLengthIsEndianGet(buf: seq<bv8>, at: nat, opt: SerializeOption, native: Endian)
    requires at + 2 <= |buf|
    ensures ReadLength(buf, at, opt) == Unsigned(buf[at..at + 2], opt.endian)
    ensures ReadLength(buf, at, opt) == Unsigned(EndianGet(buf[at..at + 2], opt.endian, native), native)
  {
    var w := buf[at..at + 2];
    EndianGetReadsWireOrder(w, opt.endian, native);
    BigEndianTwo(w);
    BigEndianTwo(Reverse(w));
  }

  /** One element of a simple list (or array) read from its chunk: a scalar
      through `endian_get`, anything else as raw memory. */
  function ReadElement(e: Tag, chunk: seq<bv8>, opt: SerializeOption, native: Endian): Value
    requires |chunk| == PayloadSize(e)
  {
    if IsArithmetic(e) then Bytes(EndianGet(chunk, opt.endian, native)) else FromMemory(e, chunk)
  }

  /** The elements of a simple list or array of `n` elements stored in `region`. */
  function ReadElements(e: Tag, n: nat, region: seq<bv8>, opt: SerializeOption, native: Endian): Value
    requires |region| == n * PayloadSize(e)
  {
    Items(seq(n, i requires 0 <= i < n => ReadElement(e, Chunk(region, i, n, PayloadSize(e)), opt, native)))
  }

  /** The loop over a list of `n` strings from element `i` on, as it is
      evidently meant: element `i` starts after the `i` length prefixes and
      the string bytes (the offset) before it. Each length moves the offset;
      an offset beyond `reversed` stops the loop with a failure. */
  function StringsFrom(items: seq<Value>, i: nat, buf: seq<bv8>, base: nat, offset: nat, reversed: nat,
                       opt: SerializeOption, native: Endian): Outcome
    requires i <= |items| && offset <= reversed && base + 2 * |items| + reversed <= |buf|
    decreases |items| - i
  {
    if i == |items| then Outcome(true, offset, Items(items))
    else
      var at := base + offset + 2 * i;
      var len := ReadLength(buf, at, opt);
      if offset + len > reversed then Outcome(false, offset + len, Items(items))
      else StringsFrom(items[i := Text(at + 2, len)], i + 1, buf, base, offset + len, reversed, opt, native)
  }

  /** The same loop as the source writes it: every element's length is read
      at `start + minimal_offset + offset`, without the `2 * i` bytes of the
      length prefixes already passed. */
  function StringsFromAsWritten(items: seq<Value>, i: nat, buf: seq<bv8>, base: nat, offset: nat, reversed: nat,
                                opt: SerializeOption, native: Endian): Outcome
    requires i <= |items| && offset <= reversed && base + 2 * |items| + reversed <= |buf|
    decreases |items| - i
  {
    if i == |items| then Outcome(true, offset, Items(items))
    else
      var at := base + offset;
      var len := ReadLength(buf, at, opt);
      if offset + len > reversed then Outcome(false, offset + len, Items(items))
      else StringsFromAsWritten(items[i := Text(at + 2, len)], i + 1, buf, base, offset + len, reversed, opt, native)
  }

  /** `deserialize_all` for a node of type `t`: complex nodes are left to
      their children; a scalar, an array or a list of non-strings is read
      at `base + offset` and leaves the offset alone; a string or a list of
      strings consumes its lengths. */
  function DecodeAll(t: Tag, prior: Value, buf: seq<bv8>, base: nat, offset: nat, reversed: nat,
                     opt: SerializeOption, native: Endian): Outcome
    requires Supported(t, opt, native) && Shaped(prior, t) && Fits(t, buf, base, offset, reversed)
  {
    var at := base + offset;
    if IsComplex(t) || t.Other? then Outcome(true, offset, prior)
    else if IsArithmetic(t) then Outcome(true, offset, Bytes(EndianGet(buf[at..at + ScalarWidth(t)], opt.endian, native)))
    else if IsArray(t) then
      Outcome(true, offset, ReadElements(ArrayElement(t), t.n, buf[at..at + PayloadSize(t)], opt, native))
    else if t.List? then
      if t.elem.Str? then
        assert PayloadSize(t) == t.n * PayloadSize(Str) == 2 * t.n;
        StringsFrom(prior.items, 0, buf, base, offset, reversed, opt, native)
      else Outcome(true, offset, ReadElements(t.elem, t.n, buf[at..at + PayloadSize(t)], opt, native))
    else
      var len := ReadLength(buf, at, opt);
      if offset + len > reversed then Outcome(false, offset + len, prior)
      else Outcome(true, offset + len, Text(at + 2, len))
  }

  // ---------------------------------------------------------------------
  // The decoder as the source runs it

  /** Chunk `i` of the region that starts at `at` is the bytes at `at`
      moved on by `i` chunks. */
  lemma ChunkOfSlice(buf: seq<bv8>, at: nat, i: nat, n: nat, w: nat, pos: nat)
    requires i < n && at + n * w <= |buf| && pos == at + ChunkStart(i, w)
    ensures pos + w <= |buf| && Chunk(buf[at..at + n * w], i, n, w) == buf[pos..pos + w]
  {
    ChunkStartIsProduct(i, w);
    ChunkFits(i, n, w);
  }

  /** `deserialize_all`, with its loops; it computes `DecodeAll`. */
  method DeserializeAll(t: Tag, prior: Value, buf: seq<bv8>, base: nat, offset: nat, reversed: nat,
                        opt: SerializeOption, native: Endian)
    returns (ok: bool, newOffset: nat, v: Value)
    requires Supported(t, opt, native) && Shaped(prior, t) && Fits(t, buf, base, offset, reversed)
    ensures Outcome(ok, newOffset, v) == DecodeAll(t, prior, buf, base, offset, reversed, opt, native)
  {
    var at := base + offset;
    if IsComplex(t) || t.Other? {
      return true, offset, prior;
    }
    if IsArithmetic(t) {
      return true, offset, Bytes(EndianGet(buf[at..at + ScalarWidth(t)], opt.endian, native));
    }
    if IsArray(t) {
      v := ReadElementsLoop(ArrayElement(t), t.n, prior.items, buf, at, opt, native);
      return true, offset, v;
    }
    if t.List? {
      ok, newOffset, v := DeserializeSimpleList(t, prior, buf, base, offset, reversed, opt, native);
      return;
    }
    var len := ReadLength(buf, at, opt);
    newOffset := offset + len;
    if newOffset > reversed {
      return false, newOffset, prior;
    }
    v := Text(at + 2, len);
    ok := true;
  }

  /** The simple-list branch of `deserialize_all`: a list of strings reads
      each length in turn, any other simple list is read element by element. */
  method DeserializeSimpleList(t: Tag, prior: Value, buf: seq<bv8>, base: nat, offset: nat, reversed: nat,
                               opt: SerializeOption, native: Endian)
    returns (ok: bool, newOffset: nat, v: Value)
    requires t.List? && IsSimple(t)
    requires Supported(t, opt, native) && Shaped(prior, t) && Fits(t, buf, base, offset, reversed)
    ensures Outcome(ok, newOffset, v) == DecodeAll(t, prior, buf, base, offset, reversed, opt, native)
  {
    Classification(t);
    if t.elem.Str? {
      assert PayloadSize(t) == 2 * |prior.items|;
      ok, newOffset, v := ReadStringsLoop(prior.items, buf, base, offset, reversed, opt, native);
    } else {
      v := ReadElementsLoop(t.elem, t.n, prior.items, buf, base + offset, opt, native);
      ok, newOffset := true, offset;
    }
  }

  /** The element loop of an array or of a simple list of non-strings:
      element after element, advancing the read position by the element size. */
  method ReadElementsLoop(e: Tag, n: nat, prior: seq<Value>, buf: seq<bv8>, at: nat, opt: SerializeOption, native: Endian)
    returns (v: Value)
    requires |prior| == n && at + n * PayloadSize(e) <= |buf|
    ensures v == ReadElements(e, n, buf[at..at + n * PayloadSize(e)], opt, native)
  {
    var w := PayloadSize(e);
    ghost var target := ReadElements(e, n, buf[at..at + n * w], opt, native).items;
    var items := prior;
    var i: nat := 0;
    var pos: nat := at;
    while i < n
      invariant i <= n && pos == at + ChunkStart(i, w)
      invariant ReadSoFar(items, target, i)
    {
      ElementStep(e, n, buf, at, i, pos, items, target, opt, native);
      var x := ReadElement(e, buf[pos..pos + w], opt, native);
      items := items[i := x];
      i, pos := i + 1, pos + w;
    }
    ReadAll(items, target);
    v := Items(items);
  }

  /** The first `i` elements have been read, and the rest are still to come. */
  ghost predicate ReadSoFar(items: seq<Value>, target: seq<Value>, i: nat)
  {
    i <= |target| && |items| == |target| && forall k :: 0 <= k < i ==> items[k] == target[k]
  }

  lemma ReadOneMore(items: seq<Value>, target: seq<Value>, i: nat, x: Value)
    requires ReadSoFar(items, target, i) && i < |target| && x == target[i]
    ensures ReadSoFar(items[i := x], target, i + 1)
  {
  }

  /** One turn of the element loop reads element `i` of the region. */
  lemma ElementStep(e: Tag, n: nat, buf: seq<bv8>, at: nat, i: nat, pos: nat, items: seq<Value>, target: seq<Value>,
                    opt: SerializeOption, native: Endian)
    requires i < n && at + n * PayloadSize(e) <= |buf| && pos == at + ChunkStart(i, PayloadSize(e))
    requires target == ReadElements(e, n, buf[at..at + n * PayloadSize(e)], opt, native).items
    requires ReadSoFar(items, target, i)
    ensures pos + PayloadSize(e) <= |buf|
    ensures ReadSoFar(items[i := ReadElement(e, buf[pos..pos + PayloadSize(e)], opt, native)], target, i + 1)
  {
    ElementAt(e, n, buf, at, i, pos, opt, native);
    ReadOneMore(items, target, i, ReadElement(e, buf[pos..pos + PayloadSize(e)], opt, native));
  }

  lemma ReadAll(items: seq<Value>, target: seq<Value>)
    requires ReadSoFar(items, target, |target|)
    ensures items == target
  {
  }

  /** The element read at `current_pos` after `i` advances of the element
      size is element `i` of the reading of the whole region. */
  lemma ElementAt(e: Tag, n: nat, buf: seq<bv8>, at: nat, i: nat, pos: nat, opt: SerializeOption, native: Endian)
    requires i < n && at + n * PayloadSize(e) <= |buf| && pos == at + ChunkStart(i, PayloadSize(e))
    ensures pos + PayloadSize(e) <= |buf|
    ensures ReadElements(e, n, buf[at..at + n * PayloadSize(e)], opt, native).items[i]
         == ReadElement(e, buf[pos..pos + PayloadSize(e)], opt, native)
  {
    ChunkOfSlice(buf, at, i, n, PayloadSize(e), pos);
    ElementOfChunk(e, n, buf[at..at + n * PayloadSize(e)], i, opt, native);
  }

  lemma ElementOfChunk(e: Tag, n: nat, region: seq<bv8>, i: nat, opt: SerializeOption, native: Endian)
    requires i < n && |region| == n * PayloadSize(e)
    ensures ReadElements(e, n, region, opt, native).items[i] == ReadElement(e, Chunk(region, i, n, PayloadSize(e)), opt, native)
  {
  }

  /** The loop over a list of strings. */
  method ReadStringsLoop(prior: seq<Value>, buf: seq<bv8>, base: nat, offset: nat, reversed: nat,
                         opt: SerializeOption, native: Endian)
    returns (ok: bool, newOffset: nat, v: Value)
    requires offset <= reversed && base + 2 * |prior| + reversed <= |buf|
    ensures Outcome(ok, newOffset, v) == StringsFrom(prior, 0, buf, base, offset, reversed, opt, native)
  {
    var n := |prior|;
    var items := prior;
    var off: nat := offset;
    var i: nat := 0;
    while i < n
      invariant 0 <= i <= n && |items| == n && off <= reversed
      invariant StringsFrom(items, i, buf, base, off, reversed, opt, native) ==
                StringsFrom(prior, 0, buf, base, offset, reversed, opt, native)
    {
      var at: nat := base + off + 2 * i;
      var len := ReadLength(buf, at, opt);
      off := off + len;
      if off > reversed {
        return false, off, Items(items);
      }
      items := items[i := Text(at + 2, len)];
      i := i + 1;
    }
    return true, off, Items(items);
  }

  // ---------------------------------------------------------------------
  // Properties

  /** Direct copy is sound: for a memory-compatible type, decoding gives
      exactly the object whose memory is the payload's bytes, succeeds, and
      leaves the offset alone. */
  lemma DirectCopyAgrees(t: Tag, prior: Value, buf: seq<bv8>, base: nat, offset: nat, reversed: nat,
                         opt: SerializeOption, native: Endian)
    requires Supported(t, opt, native) && Shaped(prior, t) && Fits(t, buf, base, offset, reversed)
    requires MemoryCompatible(t, opt, native)
    ensures DecodeAll(t, prior, buf, base, offset, reversed, opt, native) ==
            Outcome(true, offset, FromMemory(t, buf[base + offset .. base + offset + PayloadSize(t)]))
  {
    MemoryCompatibleIsFixed(t, opt, native);
    if IsArray(t) || t.List? {
      var e := if IsArray(t) then ArrayElement(t) else t.elem;
      ElementsAreMemory(t, e, buf[base + offset .. base + offset + PayloadSize(t)], opt, native);
    }
  }

  /** Reading the elements of a memory-compatible array or list one by one
      gives the object whose memory is the region. */
  lemma ElementsAreMemory(t: Tag, e: Tag, region: seq<bv8>, opt: SerializeOption, native: Endian)
    requires (IsArray(t) || t.List?) && e == (if IsArray(t) then ArrayElement(t) else t.elem)
    requires MemoryCompatible(t, opt, native) && |region| == PayloadSize(t)
    ensures |region| == t.n * PayloadSize(e)
    ensures ReadElements(e, t.n, region, opt, native) == FromMemory(t, region)
  {
    MemoryCompatibleIsFixed(t, opt, native);
    var n := t.n;
    if t.List? {
      MemoryCompatibleIsFixed(e, opt, native);
    }
    var s := PayloadSize(e);
    var got := ReadElements(e, n, region, opt, native);
    var want := FromMemory(t, region);
    assert |got.items| == |want.items| == n;
    forall i | 0 <= i < n
      ensures got.items[i] == want.items[i]
    {
      ElementIsMemory(e, Chunk(region, i, n, s), opt, native);
    }
  }

  lemma ElementIsMemory(e: Tag, chunk: seq<bv8>, opt: SerializeOption, native: Endian)
    requires MemoryCompatible(e, opt, native) && |chunk| == PayloadSize(e)
    ensures ReadElement(e, chunk, opt, native) == FromMemory(e, chunk)
  {
    MemoryCompatibleIsFixed(e, opt, native);
  }

  /** A payload of fixed size always decodes and never moves the offset. */
  lemma FixedNeverFails(t: Tag, prior: Value, buf: seq<bv8>, base: nat, offset: nat, reversed: nat,
                        opt: SerializeOption, native: Endian)
    requires Supported(t, opt, native) && Shaped(prior, t) && Fits(t, buf, base, offset, reversed)
    requires PayloadFixed(t) || IsComplex(t) || t.Other?
    ensures DecodeAll(t, prior, buf, base, offset, reversed, opt, native).ok
    ensures DecodeAll(t, prior, buf, base, offset, reversed, opt, native).offset == offset
  {
  }

  /** A string decodes exactly when the extra bytes its length announces fit
      in what the buffer holds beyond the minimal size; it then becomes the
      view of those bytes, just after its length prefix and inside the buffer. */
  lemma StringDecode(prior: Value, buf: seq<bv8>, base: nat, offset: nat, reversed: nat,
                     opt: SerializeOption, native: Endian)
    requires Shaped(prior, Str) && Fits(Str, buf, base, offset, reversed)
    ensures var at := base + offset;
      var r := DecodeAll(Str, prior, buf, base, offset, reversed, opt, native);
      var len := Unsigned(buf[at..at + 2], opt.endian);
      && (r.ok <==> offset + len <= reversed)
      && r.offset == offset + len
      && (r.ok ==> r.value == Text(at + 2, len) && at + 2 + len <= |buf|)
      && (!r.ok ==> r.value == prior)
  {
    ReadLengthIsEndianGet(buf, base + offset, opt, native);
  }

  /** The loop over strings keeps the list's length and the elements before
      `i`, and leaves every element either as it was or a string view. */
  lemma {:induction false} StringsFromShape(items: seq<Value>, i: nat, buf: seq<bv8>, base: nat, offset: nat,
                                            reversed: nat, opt: SerializeOption, native: Endian)
    requires i <= |items| && offset <= reversed && base + 2 * |items| + reversed <= |buf|
    ensures var r := StringsFrom(items, i, buf, base, offset, reversed, opt, native);
      && r.value.Items? && |r.value.items| == |items|
      && (forall k :: 0 <= k < i ==> r.value.items[k] == items[k])
      && (forall k :: 0 <= k < |items| ==> r.value.items[k] == items[k] || r.value.items[k].Text?)
    decreases |items| - i
  {
    if i < |items| {
      var at := base + offset + 2 * i;
      var len := ReadLength(buf, at, opt);
      if offset + len <= reversed {
        var next := items[i := Text(at + 2, len)];
        var r := StringsFrom(next, i + 1, buf, base, offset + len, reversed, opt, native);
        assert StringsFrom(items, i, buf, base, offset, reversed, opt, native) == r;
        StringsFromShape(next, i + 1, buf, base, offset + len, reversed, opt, native);
        forall k | 0 <= k < |items|
          ensures r.value.items[k] == items[k] || r.value.items[k].Text?
        {
          if k == i {
            assert r.value.items[k] == next[k];
          }
        }
      }
    }
  }

  /** On success the loop over strings keeps the offset within `reversed`;
      a failure means the lengths overran it. */
  lemma {:induction false} StringsFromResult(items: seq<Value>, i: nat, buf: seq<bv8>, base: nat, offset: nat,
                                             reversed: nat, opt: SerializeOption, native: Endian)
    requires i <= |items| && offset <= reversed && base + 2 * |items| + reversed <= |buf|
    ensures var r := StringsFrom(items, i, buf, base, offset, reversed, opt, native);
      && (r.ok ==> offset <= r.offset <= reversed)
      && (!r.ok ==> r.offset > reversed)
    decreases |items| - i
  {
    if i < |items| {
      var at := base + offset + 2 * i;
      var len := ReadLength(buf, at, opt);
      if offset + len <= reversed {
        var next := items[i := Text(at + 2, len)];
        assert StringsFrom(items, i, buf, base, offset, reversed, opt, native)
            == StringsFrom(next, i + 1, buf, base, offset + len, reversed, opt, native);
        StringsFromResult(next, i + 1, buf, base, offset + len, reversed, opt, native);
      }
    }
  }

  /** On success the loop over strings has replaced every element from `i`
      on by a view inside the buffer. */
  lemma {:induction false} StringsFromViews(items: seq<Value>, i: nat, buf: seq<bv8>, base: nat, offset: nat,
                                            reversed: nat, opt: SerializeOption, native: Endian)
    requires i <= |items| && offset <= reversed && base + 2 * |items| + reversed <= |buf|
    ensures var r := StringsFrom(items, i, buf, base, offset, reversed, opt, native);
      r.ok ==> r.value.Items? && |r.value.items| == |items| && forall k :: i <= k < |items| ==>
            r.value.items[k].Text? && r.value.items[k].start + r.value.items[k].len <= |buf|
    decreases |items| - i
  {
    if i < |items| {
      var at := base + offset + 2 * i;
      var len := ReadLength(buf, at, opt);
      if offset + len <= reversed {
        var next := items[i := Text(at + 2, len)];
        var r := StringsFrom(next, i + 1, buf, base, offset + len, reversed, opt, native);
        assert StringsFrom(items, i, buf, base, offset, reversed, opt, native) == r;
        StringsFromViews(next, i + 1, buf, base, offset + len, reversed, opt, native);
        StringsFromShape(next, i + 1, buf, base, offset + len, reversed, opt, native);
        if r.ok {
          assert r.value.items[i] == next[i];
        }
      }
    }
  }

  /** On success the offset has grown by exactly the lengths of the strings
      read from `i` on. */
  lemma {:induction false} StringsFromExtra(items: seq<Value>, i: nat, buf: seq<bv8>, base: nat, offset: nat,
                                            reversed: nat, opt: SerializeOption, native: Endian)
    requires i <= |items| && offset <= reversed && base + 2 * |items| + reversed <= |buf|
    ensures var r := StringsFrom(items, i, buf, base, offset, reversed, opt, native);
      r.value.Items? && (r.ok ==> r.offset == offset + ExtraFrom(r.value.items, Str, i))
    decreases |items| - i
  {
    if i < |items| {
      var at := base + offset + 2 * i;
      var len := ReadLength(buf, at, opt);
      if offset + len <= reversed {
        var next := items[i := Text(at + 2, len)];
        var r := StringsFrom(next, i + 1, buf, base, offset + len, reversed, opt, native);
        assert StringsFrom(items, i, buf, base, offset, reversed, opt, native) == r;
        StringsFromExtra(next, i + 1, buf, base, offset + len, reversed, opt, native);
        StringsFromShape(next, i + 1, buf, base, offset + len, reversed, opt, native);
        if r.ok {
          assert r.value.items[i] == next[i];
          assert ExtraFrom(r.value.items, Str, i) == len + ExtraFrom(r.value.items, Str, i + 1);
        }
      }
    }
  }

  /** Every successful decode moves the offset by exactly the payload's
      extra size (what `payload_extra_size` reports when serializing the
      decoded object), keeps the object well shaped, and a failure always
      means the announced lengths overran the buffer. */
  lemma DecodeAllOffset(t: Tag, prior: Value, buf: seq<bv8>, base: nat, offset: nat, reversed: nat,
                        opt: SerializeOption, native: Endian)
    requires Supported(t, opt, native) && Shaped(prior, t) && Fits(t, buf, base, offset, reversed)
    ensures var r := DecodeAll(t, prior, buf, base, offset, reversed, opt, native);
      && Shaped(r.value, t)
      && (r.ok ==> offset <= r.offset <= reversed && r.offset == offset + PayloadExtraSize(r.value, t))
      && (!r.ok ==> r.offset > reversed)
  {
    var r := DecodeAll(t, prior, buf, base, offset, reversed, opt, native);
    if IsComplex(t) || t.Other? || IsArithmetic(t) {
    } else if IsArray(t) || (t.List? && !t.elem.Str?) {
      var e := if IsArray(t) then ArrayElement(t) else t.elem;
      ReadElementsShaped(t, e, buf[base + offset .. base + offset + PayloadSize(t)], opt, native);
      if t.List? {
        assert PayloadFixed(t) by {
          if !IsArithmetic(e) { MemoryCompatibleIsFixed(e, opt, native); }
        }
      }
    } else if t.List? {
      Classification(t);
      assert PayloadSize(Str) == 2;
      assert PayloadSize(t) == t.n * 2;
      StringListDecode(t.n, prior, buf, base, offset, reversed, opt, native);
    }
  }

  lemma StringListDecode(n: nat, prior: Value, buf: seq<bv8>, base: nat, offset: nat, reversed: nat,
                         opt: SerializeOption, native: Endian)
    requires Shaped(prior, List(Str, n)) && offset <= reversed && base + 2 * n + reversed <= |buf|
    ensures var r := StringsFrom(prior.items, 0, buf, base, offset, reversed, opt, native);
      && Shaped(r.value, List(Str, n))
      && (r.ok ==> offset <= r.offset <= reversed && r.offset == offset + PayloadExtraSize(r.value, List(Str, n)))
      && (!r.ok ==> r.offset > reversed)
  {
    StringsFromShape(prior.items, 0, buf, base, offset, reversed, opt, native);
    StringsFromResult(prior.items, 0, buf, base, offset, reversed, opt, native);
    StringsFromViews(prior.items, 0, buf, base, offset, reversed, opt, native);
    StringsFromExtra(prior.items, 0, buf, base, offset, reversed, opt, native);
  }

  lemma ReadElementsShaped(t: Tag, e: Tag, region: seq<bv8>, opt: SerializeOption, native: Endian)
    requires (IsArray(t) && e == ArrayElement(t)) || (t.List? && IsSimple(t) && e == t.elem && Supported(t, opt, native) && !e.Str?)
    requires |region| == t.n * PayloadSize(e)
    ensures Shaped(ReadElements(e, t.n, region, opt, native), t)
  {
    var v := ReadElements(e, t.n, region, opt, native);
    forall i | 0 <= i < t.n
      ensures Shaped(v.items[i], e)
    {
      if !IsArithmetic(e) {
        FromMemoryShaped(e, Chunk(region, i, t.n, PayloadSize(e)), opt, native);
      }
    }
  }

  // ---------------------------------------------------------------------
  // The list of strings, as written and as intended

  /** The list `["a", "b"]` at the root, big-endian: eight header bytes
      (tag 9, empty name, element tag 8, length 2), then 00 01 'a' 00 01 'b'. */
  const ListHeader: seq<bv8> := [0x09, 0x00, 0x00, 0x08, 0x00, 0x00, 0x00, 0x02]
  const TwoStrings: seq<bv8> := ListHeader + [0x00, 0x01, 0x61, 0x00, 0x01, 0x62]

  lemma TwoStringsLengths()
    ensures |TwoStrings| == 14
    ensures TwoStrings[8..10] == [0x00, 0x01] && TwoStrings[11..13] == [0x00, 0x01]
    ensures TwoStrings[9..11] == [0x01, 0x61]
  {
  }

  lemma LengthOne(opt: SerializeOption, at: nat)
    requires opt.endian == Big && at + 2 <= |TwoStrings| && TwoStrings[at..at + 2] == [0x00, 0x01]
    ensures ReadLength(TwoStrings, at, opt) == 1
  {
    assert TwoStrings[at] == TwoStrings[at..at + 2][0];
    assert TwoStrings[at + 1] == TwoStrings[at..at + 2][1];
  }

  lemma LengthLarge(opt: SerializeOption)
    requires opt.endian == Big
    ensures ReadLength(TwoStrings, 9, opt) == 353
  {
    TwoStringsLengths();
    assert TwoStrings[9] == TwoStrings[9..11][0];
    assert TwoStrings[10] == TwoStrings[9..11][1];
  }

  /** As written, the second length is read one byte into the first string
      (bytes 01 61, i.e. 353) and the decode fails; the intended loop reads
      both strings and succeeds, using all 14 bytes. */
  lemma TwoStringsExample(native: Endian)
    ensures !StringsFromAsWritten([Text(0, 0), Text(0, 0)], 0, TwoStrings, 8, 0, 2, DefaultOption, native).ok
    ensures StringsFrom([Text(0, 0), Text(0, 0)], 0, TwoStrings, 8, 0, 2, DefaultOption, native)
         == Outcome(true, 2, Items([Text(10, 1), Text(13, 1)]))
  {
    TwoStringsLengths();
    LengthOne(DefaultOption, 8);
    LengthOne(DefaultOption, 11);
    LengthLarge(DefaultOption);
    var s0: seq<Value> := [Text(0, 0), Text(0, 0)];
    var s1 := s0[0 := Text(10, 1)];
    assert StringsFromAsWritten(s0, 0, TwoStrings, 8, 0, 2, DefaultOption, native)
        == StringsFromAsWritten(s1, 1, TwoStrings, 8, 1, 2, DefaultOption, native);
    var s2 := s1[1 := Text(13, 1)];
    assert StringsFrom(s0, 0, TwoStrings, 8, 0, 2, DefaultOption, native)
        == StringsFrom(s1, 1, TwoStrings, 8, 1, 2, DefaultOption, native);
    assert StringsFrom(s1, 1, TwoStrings, 8, 1, 2, DefaultOption, native)
        == StringsFrom(s2, 2, TwoStrings, 8, 2, 2, DefaultOption, native);
    assert s2 == [Text(10, 1), Text(13, 1)];
  }
}
