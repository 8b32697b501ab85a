/** `endian_get`: reading a scalar of the wire byte order into a host
    value. A host value is modelled by its bytes in host memory order;
    the unsigned and two's-complement readings of those bytes say which
    number they stand for. */
module ByteOrder {
  import opened NbtTags

  /** The bytes in the opposite order (`std::byteswap`). */
  function Reverse(w: seq<bv8>): (r: seq<bv8>)
    ensures |r| == |w|
    ensures forall i :: 0 <= i < |w| ==> r[i] == w[|w| - 1 - i]
  {
    seq(|w|, i requires 0 <= i < |w| => w[|w| - 1 - i])
  }

  lemma ReverseReverse(w: seq<bv8>)
    ensures Reverse(Reverse(w)) == w
  {
  }

  /** `endian_get<T, E>`: the host bytes of the scalar whose wire bytes are
      `w` — a plain load when the wire order is the host's, a byte swap otherwise. */
  function EndianGet(w: seq<bv8>, order: Endian, native: Endian): (r: seq<bv8>)
    ensures |r| == |w|
  {
    if order == native then w else Reverse(w)
  }

  /** The number a byte string denotes with its most significant byte first. */
  function BigEndianValue(w: seq<bv8>): nat
    decreases |w|
  {
    if |w| == 0 then 0 else BigEndianValue(w[..|w| - 1]) * 256 + w[|w| - 1] as nat
  }

  function Pow256(k: nat): (r: nat)
    ensures r > 0
  {
    if k == 0 then 1 else 256 * Pow256(k - 1)
  }

  /** The unsigned number the bytes `w` denote in byte order `order`. */
  function Unsigned(w: seq<bv8>, order: Endian): nat
  {
    if order == Big then BigEndianValue(w) else BigEndianValue(Reverse(w))
  }

  /** The two's-complement number the bytes `w` denote in byte order `order`. */
  function Signed(w: seq<bv8>, order: Endian): int
  {
    var u := Unsigned(w, order);
    if |w| > 0 && 2 * u >= Pow256(|w|) then u - Pow256(|w|) else u
  }

  lemma {:induction false} BigEndianBound(w: seq<bv8>)
    ensures BigEndianValue(w) < Pow256(|w|)
    decreases |w|
  {
    if |w| > 0 {
      BigEndianBound(w[..|w| - 1]);
    }
  }

  /** A `k`-byte scalar read is an unsigned number below 256^k. */
  lemma UnsignedBound(w: seq<bv8>, order: Endian)
    ensures Unsigned(w, order) < Pow256(|w|)
  {
    BigEndianBound(w);
    BigEndianBound(Reverse(w));
  }

  /** A signed reading lies in the two's-complement range of its width. */
  lemma SignedRange(w: seq<bv8>, order: Endian)
    requires |w| > 0
    ensures -(Pow256(|w|) as int) <= 2 * Signed(w, order) < Pow256(|w|)
  {
    UnsignedBound(w, order);
  }

  /** Whatever the host's byte order, the host number obtained through
      `endian_get` is the number the wire bytes denote in the wire order. */
  lemma EndianGetReadsWireOrder(w: seq<bv8>, order: Endian, native: Endian)
    ensures Unsigned(EndianGet(w, order, native), native) == Unsigned(w, order)
    ensures Signed(EndianGet(w, order, native), native) == Signed(w, order)
  {
    if order != native {
      ReverseReverse(w);
    }
  }

  /** Reading twice with the same orders gives the wire bytes back. */
  lemma EndianGetInvolutive(w: seq<bv8>, order: Endian, native: Endian)
    ensures EndianGet(EndianGet(w, order, native), order, native) == w
  {
    ReverseReverse(w);
  }

  /** Appending a less significant byte. */
  lemma BigEndianSnoc(w: seq<bv8>, b: bv8)
    ensures BigEndianValue(w + [b]) == BigEndianValue(w) * 256 + b as nat
  {
    assert (w + [b])[..|w|] == w;
  }

  /** Two bytes, most significant first. */
  lemma BigEndianTwo(w: seq<bv8>)
    requires |w| == 2
    ensures BigEndianValue(w) == w[0] as nat * 256 + w[1] as nat
  {
    assert w[..1][..0] == [];
    assert BigEndianValue(w[..1]) == w[0] as nat;
  }

  /** The wire bytes 00 00 01 00 of a big-endian int are 256 on any host. */
  lemma ReadBigEndianExample(native: Endian)
    ensures Unsigned(EndianGet([0x00, 0x00, 0x01, 0x00], Big, native), native) == 256
  {
    var w: seq<bv8> := [0x00, 0x00, 0x01, 0x00];
    EndianGetReadsWireOrder(w, Big, native);
    BigEndianSnoc([], 0x00);
    BigEndianSnoc([0x00], 0x00);
    BigEndianSnoc([0x00, 0x00], 0x01);
    BigEndianSnoc([0x00, 0x00, 0x01], 0x00);
    assert w == [0x00, 0x00, 0x01] + [0x00];
  }

  /** The wire bytes FF FF FF FF of a big-endian int are -1 on any host. */
  lemma ReadMinusOneExample(native: Endian)
    ensures Signed(EndianGet([0xFF, 0xFF, 0xFF, 0xFF], Big, native), native) == -1
  {
    var m: seq<bv8> := [0xFF, 0xFF, 0xFF, 0xFF];
    EndianGetReadsWireOrder(m, Big, native);
    BigEndianSnoc([], 0xFF);
    BigEndianSnoc([0xFF], 0xFF);
    BigEndianSnoc([0xFF, 0xFF], 0xFF);
    BigEndianSnoc([0xFF, 0xFF, 0xFF], 0xFF);
    assert (0xFF as bv8) as nat == 255;
    assert BigEndianValue([0xFF]) == 255;
    assert BigEndianValue([0xFF, 0xFF]) == 65535;
    assert BigEndianValue([0xFF, 0xFF, 0xFF]) == 16777215;
    assert m == [0xFF, 0xFF, 0xFF] + [0xFF];
    assert BigEndianValue(m) == 4294967295;
    assert Pow256(4) == 4294967296;
  }

  /** Under the little-endian option the same bytes 00 00 01 00 are 65536. */
  lemma ReadLittleEndianExample(native: Endian)
    ensures Unsigned(EndianGet([0x00, 0x00, 0x01, 0x00], Little, native), native) == 65536
  {
    var w: seq<bv8> := [0x00, 0x00, 0x01, 0x00];
    EndianGetReadsWireOrder(w, Little, native);
    var r := Reverse(w);
    assert r[0] == 0x00 && r[1] == 0x01 && r[2] == 0x00 && r[3] == 0x00;
    var r3: seq<bv8> := [0x00, 0x01, 0x00];
    assert r == r3 + [0x00];
    BigEndianSnoc([0x00], 0x01);
    BigEndianSnoc([0x00, 0x01], 0x00);
    BigEndianSnoc(r3, 0x00);
    assert BigEndianValue([0x00, 0x01]) == 1;
    assert BigEndianValue(r3) == 256;
  }
}
