/** Byte encodings of bit strings: the Path codec and the database keys built from it. */
module PathCodec {
  import opened Wrappers
  import opened BitStrings

  newtype Byte = x: int | 0 <= x < 256

  type ByteVec = seq<Byte>

  // ----- bits of a byte -----

  /** The bits read as a big-endian number. */
  function Number(bits: Bits): nat {
    if bits == [] then 0 else 2 * Number(bits[..|bits| - 1]) + if bits[|bits| - 1] then 1 else 0
  }

  /** The bytes read as a big-endian number. */
  function BytesNumber(s: ByteVec): nat {
    if s == [] then 0 else 256 * BytesNumber(s[..|s| - 1]) + s[|s| - 1] as int
  }

  function Shr(b: nat, n: nat): nat {
    if n == 0 then b else Shr(b / 2, n - 1)
  }

  function Pow2(n: nat): nat {
    if n == 0 then 1 else 2 * Pow2(n - 1)
  }

  /** Bit j of a byte, counted from the most significant one. */
  function BitOf(b: Byte, j: nat): bool
    requires j < 8
  {
    Shr(b as int, 7 - j) % 2 == 1
  }

  lemma {:induction false} NumberBound(bits: Bits)
    ensures Number(bits) < Pow2(|bits|)
  {
    if bits != [] { NumberBound(bits[..|bits| - 1]); }
  }

  lemma {:induction false} ShrNumber(bits: Bits, n: nat)
    requires n <= |bits|
    ensures Shr(Number(bits), n) == Number(bits[..|bits| - n])
  {
    if n == 0 {
      assert bits[..|bits|] == bits;
    } else {
      var most := bits[..|bits| - 1];
      ShrNumber(most, n - 1);
      assert most[..|most| - (n - 1)] == bits[..|bits| - n];
    }
  }

  lemma {:induction false} NumberSetBit(bits: Bits, j: nat)
    requires j < |bits| && !bits[j]
    ensures Number(bits[j := true]) == Number(bits) + Pow2(|bits| - 1 - j)
  {
    var last := |bits| - 1;
    if j < last {
      NumberSetBit(bits[..last], j);
      assert bits[j := true][..last] == bits[..last][j := true];
    } else {
      assert bits[j := true][..last] == bits[..last];
    }
  }

  /** The eight bits as a byte. */
  function ToByte(bits: Bits): (b: Byte)
    requires |bits| == 8
    ensures forall j :: 0 <= j < 8 ==> BitOf(b, j) == bits[j]
  {
    NumberBound(bits);
    assert Pow2(8) == 256;
    assert forall j :: 0 <= j < 8 ==> Shr(Number(bits), 7 - j) % 2 == (if bits[j] then 1 else 0) by {
      forall j | 0 <= j < 8 ensures Shr(Number(bits), 7 - j) % 2 == (if bits[j] then 1 else 0) {
        ShrNumber(bits, 7 - j);
      }
    }
    Number(bits) as Byte
  }

  // ----- specification of the codec -----

  /** The i-th group of eight bits, padded with zeros. */
  function Chunk(p: Bits, i: nat): (c: Bits)
    ensures |c| == 8
    ensures forall j :: 0 <= j < 8 ==> c[j] == (8 * i + j < |p| && p[8 * i + j])
  {
    seq(8, j requires 0 <= j < 8 => 8 * i + j < |p| && p[8 * i + j])
  }

  /** The bits packed into bytes, most significant bit first, the last byte padded with zeros. */
  function Pack(p: Bits): (s: ByteVec)
    ensures |s| == (|p| + 7) / 8
    ensures forall i, j :: 0 <= i < |s| && 0 <= j < 8 ==> BitOf(s[i], j) == (8 * i + j < |p| && p[8 * i + j])
  {
    seq((|p| + 7) / 8, i requires 0 <= i => ToByte(Chunk(p, i)))
  }

  function Unpack(s: ByteVec, len: nat): (p: Bits)
    requires len <= 8 * |s|
    ensures |p| == len
  {
    seq(len, n requires 0 <= n < len => BitOf(s[n / 8], n % 8))
  }

  lemma {:induction false} UnpackPack(p: Bits, rest: ByteVec)
    ensures Unpack(Pack(p) + rest, |p|) == p
  {
    var u := Unpack(Pack(p) + rest, |p|);
    forall n | 0 <= n < |p| ensures u[n] == p[n] {
      var i, j := n / 8, n % 8;
      assert n == 8 * i + j && i < |Pack(p)|;
      assert u[n] == BitOf((Pack(p) + rest)[i], j);
      assert (Pack(p) + rest)[i] == Pack(p)[i];
      assert BitOf(Pack(p)[i], j) == p[8 * i + j];
    }
  }

  function LenByte(p: Bits): Byte {
    (|p| % 256) as Byte
  }

  function EncodedSize(len: nat): nat {
    1 + (len + 7) / 8
  }

  /** The bit string at the front of an encoding; the empty one when the bytes are too few. */
  function PathOf(s: ByteVec): (p: Bits)
    ensures |p| < 256
  {
    if s == [] || |s| < EncodedSize(s[0] as int) then [] else Unpack(s[1..], s[0] as int)
  }

  function EncodePath(p: Bits): (s: ByteVec)
    ensures |s| == EncodedSize(|p|) && s[0] == LenByte(p)
    ensures |p| < 256 ==> PathOf(s) == p && s[0] as int == |p|
  {
    UnpackPack(p, []);
    assert Pack(p) + [] == Pack(p) == ([LenByte(p)] + Pack(p))[1..];
    [LenByte(p)] + Pack(p)
  }

  // ----- laws -----

  /** Bit j of the string as a number, zero past its end. */
  function BitAt(p: Bits, j: nat): nat {
    if j < |p| && p[j] then 1 else 0
  }

  lemma {:induction false} NumberEight(c: Bits)
    requires |c| == 8
    ensures Number(c) == 128 * BitAt(c, 0) + 64 * BitAt(c, 1) + 32 * BitAt(c, 2) + 16 * BitAt(c, 3)
                         + 8 * BitAt(c, 4) + 4 * BitAt(c, 5) + 2 * BitAt(c, 6) + BitAt(c, 7)
  {
    assert c[..0] == [] && c[..8] == c;
    assert forall n :: 0 <= n < 8 ==> c[..n + 1][..n] == c[..n];
    assert forall n :: 0 <= n < 8 ==> Number(c[..n + 1]) == 2 * Number(c[..n]) + BitAt(c, n);
    hide Number, BitAt;
    assert Number(c[..1]) == BitAt(c, 0) by { NumberOfNone(c[..0]); }
    assert Number(c[..2]) == 2 * Number(c[..1]) + BitAt(c, 1);
    assert Number(c[..3]) == 2 * Number(c[..2]) + BitAt(c, 2);
    assert Number(c[..4]) == 2 * Number(c[..3]) + BitAt(c, 3);
    assert Number(c[..5]) == 2 * Number(c[..4]) + BitAt(c, 4);
    assert Number(c[..6]) == 2 * Number(c[..5]) + BitAt(c, 5);
    assert Number(c[..7]) == 2 * Number(c[..6]) + BitAt(c, 6);
    assert Number(c[..8]) == 2 * Number(c[..7]) + BitAt(c, 7);
  }

  lemma {:induction false} NumberOfNone(p: Bits)
    requires p == []
    ensures Number(p) == 0
  {
  }

  /** The bytes of an encoding: the length, then eight bits a byte, the first one worth most, zeros after the last. */
  lemma {:induction false} EncodedByte(p: Bits, i: nat)
    requires i < (|p| + 7) / 8
    ensures EncodePath(p)[1 + i] as int ==
              128 * BitAt(p, 8 * i) + 64 * BitAt(p, 8 * i + 1) + 32 * BitAt(p, 8 * i + 2) + 16 * BitAt(p, 8 * i + 3)
              + 8 * BitAt(p, 8 * i + 4) + 4 * BitAt(p, 8 * i + 5) + 2 * BitAt(p, 8 * i + 6) + BitAt(p, 8 * i + 7)
  {
    var c := Chunk(p, i);
    assert Pack(p)[i] == ToByte(c) && EncodePath(p)[1 + i] == Pack(p)[i];
    assert forall j :: 0 <= j < 8 ==> BitAt(c, j) == BitAt(p, 8 * i + j);
    ToByteNumber(c);
    hide Number, BitOf, BitAt, Pack, ToByte;
    NumberEight(c);
    assert BitAt(c, 0) == BitAt(p, 8 * i + 0);
  }

  lemma {:induction false} ToByteNumber(bits: Bits)
    requires |bits| == 8
    ensures ToByte(bits) as int == Number(bits)
  {
  }

  /** Decoding inverts encoding and ignores whatever follows the encoded bytes. */
  lemma {:induction false} DecodeEncode(p: Bits, rest: ByteVec)
    requires |p| < 256
    ensures PathOf(EncodePath(p) + rest) == p
  {
    assert (EncodePath(p) + rest)[1..] == Pack(p) + rest;
    UnpackPack(p, rest);
  }

  /** No encoding is a prefix of another. */
  lemma {:induction false} EncodePrefixFree(p: Bits, q: Bits)
    requires |p| < 256 && |q| < 256
    ensures EncodePath(p) <= EncodePath(q) <==> p == q
  {
    if EncodePath(p) <= EncodePath(q) {
      assert EncodePath(q)[0] == EncodePath(p)[0];
      assert |p| == |q|;
      assert EncodePath(p) == EncodePath(q);
    }
  }

  // ----- the codec loops -----

  /** store | (bit << pos). */
  function OrBit(store: Byte, bit: bool, pos: nat): Byte
    requires pos < 8
    requires !BitOf(store, 7 - pos) ==> store as int + Pow2(pos) < 256
  {
    if bit && !BitOf(store, 7 - pos) then (store as int + Pow2(pos)) as Byte else store
  }

  /** The group that bit i falls in, with only the bits before i. */
  ghost function Partial(p: Bits, i: nat): (c: Bits)
    requires i <= |p|
    ensures |c| == 8
  {
    seq(8, j requires 0 <= j < 8 => j < i % 8 && p[8 * (i / 8) + j])
  }

  lemma {:induction false} ByteBits(b: Byte, bits: Bits)
    requires |bits| == 8 && b as int == Number(bits)
    ensures b == ToByte(bits)
  {
  }

  /** Taking in bit i sets it in the current store, which never overflows. */
  lemma {:induction false} PartialStep(p: Bits, i: nat, store: Byte)
    requires i < |p| && store as int == Number(Partial(p, i))
    ensures !BitOf(store, i % 8) && store as int + Pow2(7 - i % 8) < 256
    ensures OrBit(store, p[i], 7 - i % 8) as int == Number(Partial(p, i)[i % 8 := p[i]])
    ensures i % 8 < 7 ==> Partial(p, i + 1) == Partial(p, i)[i % 8 := p[i]]
    ensures i % 8 == 7 ==> Partial(p, i)[i % 8 := p[i]] == Chunk(p, i / 8)
  {
    var c := Partial(p, i);
    ByteBits(store, c);
    NumberSetBit(c, i % 8);
    NumberBound(c[i % 8 := true]);
    assert Pow2(8) == 256;
    assert !p[i] ==> c[i % 8 := p[i]] == c;
    ByteCount(i);
    hide Number, Pow2, BitOf;
    assert i % 8 < 7 ==> Partial(p, i + 1) == c[i % 8 := p[i]];
  }

  lemma {:induction false} ZeroNumber(n: nat)
    ensures Number(seq(n, _ => false)) == 0
  {
    if n > 0 {
      ZeroNumber(n - 1);
      assert seq(n, _ => false)[..n - 1] == seq(n - 1, _ => false);
    }
  }

  lemma {:induction false} EmptyPartial(p: Bits, i: nat)
    requires i <= |p| && i % 8 == 0
    ensures Number(Partial(p, i)) == 0
  {
    assert Partial(p, i) == seq(8, _ => false);
    ZeroNumber(8);
  }

  /** A finished group is the next byte of the packing. */
  lemma {:induction false} FlushByte(p: Bits, n: nat, store: Byte)
    requires 8 * n < |p| && store as int == Number(Chunk(p, n))
    ensures Pack(p)[..n] + [store] == Pack(p)[..n + 1]
  {
    ByteBits(store, Chunk(p, n));
  }

  /** Stepping over bit n: the byte it lies in and the bytes needed so far. */
  lemma {:induction false} ByteCount(n: nat)
    ensures n % 8 == 0 ==> (n + 7) / 8 == n / 8
    ensures n % 8 != 0 ==> (n + 7) / 8 == n / 8 + 1
    ensures (n + 8) / 8 == n / 8 + 1
    ensures n % 8 == 7 ==> (n + 1) % 8 == 0 && (n + 1) / 8 == n / 8 + 1
    ensures n % 8 != 7 ==> (n + 1) % 8 == n % 8 + 1 && (n + 1) / 8 == n / 8
  {
  }

  /** One bit of the encoder: either the store is one bit further or it is flushed. */
  lemma {:induction false} EncodeStep(p: Bits, i: nat, store: Byte)
    requires i < |p| && store as int == Number(Partial(p, i))
    ensures !BitOf(store, i % 8) && store as int + Pow2(7 - i % 8) < 256
    ensures var store' := OrBit(store, p[i], 7 - i % 8);
            if i % 8 == 7 then
              Pack(p)[..(i + 1) / 8] == Pack(p)[..i / 8] + [store'] && Number(Partial(p, i + 1)) == 0
            else
              (i + 1) / 8 == i / 8 && Number(Partial(p, i + 1)) == store' as int
  {
    PartialStep(p, i, store);
    ByteCount(i);
    if i % 8 == 7 {
      FlushByte(p, i / 8, OrBit(store, p[i], 0));
      EmptyPartial(p, i + 1);
    }
  }

  /** The last, unfinished store is the last byte. */
  lemma {:induction false} EncodeEnd(p: Bits, store: Byte)
    requires |p| % 8 != 0 && store as int == Number(Partial(p, |p|))
    ensures Pack(p) == Pack(p)[..|p| / 8] + [store]
  {
    ByteCount(|p|);
    assert Partial(p, |p|) == Chunk(p, |p| / 8);
    FlushByte(p, |p| / 8, store);
    assert Pack(p)[..|p| / 8 + 1] == Pack(p);
  }

  method EncodeTo(p: Bits) returns (dest: ByteVec)
    ensures dest == EncodePath(p)
  {
    hide BitOf, Number, Pow2, OrBit, Pack, Partial;
    dest := [LenByte(p)];
    var nextStore: Byte := 0;
    var posInNextStore: nat := 7;
    EmptyPartial(p, 0);
    for i := 0 to |p|
      invariant posInNextStore == 7 - i % 8
      invariant dest == [LenByte(p)] + Pack(p)[..i / 8]
      invariant nextStore as int == Number(Partial(p, i))
    {
      EncodeStep(p, i, nextStore);
      ByteCount(i);
      nextStore := OrBit(nextStore, p[i], posInNextStore);
      if posInNextStore == 0 {
        posInNextStore := 8;
        dest := dest + [nextStore];
        nextStore := 0;
      }
      posInNextStore := posInNextStore - 1;
    }
    ByteCount(|p|);
    if posInNextStore < 7 {
      EncodeEnd(p, nextStore);
      dest := dest + [nextStore];
    }
  }

  lemma {:induction false} UnpackStep(s: ByteVec, n: nat)
    requires n < 8 * |s|
    ensures Unpack(s, n + 1) == Unpack(s, n) + [BitOf(s[n / 8], n % 8)]
  {
  }

  /** Reads one path off the front of the input; fails only when the bytes run out. */
  method Decode(input: ByteVec) returns (r: Result<(Bits, ByteVec), string>)
    ensures r.Success? <==> input != [] && |input| >= EncodedSize(input[0] as int)
    ensures r.Success? ==> r.value == (PathOf(input), input[EncodedSize(input[0] as int)..])
  {
    hide BitOf, Unpack;
    if input == [] { return Failure("Not enough data to fill buffer"); }
    var len := input[0] as int;
    var rest := input[1..];
    var remainingBits := len;
    var currentByte: Option<Byte> := None;
    var bit: nat := 7;
    var bits: Bits := [];
    while remainingBits != 0
      invariant 0 <= remainingBits <= len && |bits| == len - remainingBits
      invariant bit == 7 - |bits| % 8
      invariant currentByte.None? <==> |bits| % 8 == 0
      invariant var used := 1 + (|bits| + 7) / 8; used <= |input| && rest == input[used..]
      invariant currentByte.Some? ==> currentByte.value == input[1 + |bits| / 8]
      invariant bits == Unpack(input[1..], |bits|)
    {
      ByteCount(|bits|);
      var store: Byte;
      match currentByte {
        case Some(b) => store := b;
        case None =>
          if rest == [] { return Failure("Not enough data to fill buffer"); }
          store, rest := rest[0], rest[1..];
          currentByte := Some(store);
      }
      UnpackStep(input[1..], |bits|);
      bits := bits + [BitOf(store, 7 - bit)];
      remainingBits := remainingBits - 1;
      if bit == 0 {
        currentByte := None;
        bit := 8;
      }
      bit := bit - 1;
    }
    return Success((bits, rest));
  }

  // ----- the in-memory layout of a bit slice -----

  /** Keys of the flat database; the empty slice has no length byte. */
  function BitsliceToBytes(k: Bits): (s: ByteVec)
    ensures 0 < |k| < 256 ==> PathOf(s) == k
  {
    if k == [] then [] else
      var s := [LenByte(k)] + Pack(k);
      assert s == EncodePath(k);
      s
  }

  function BytesToBitvec(s: ByteVec): Bits
    requires s != []
  {
    Unpack(s[1..], 8 * |s[1..]|)
  }

  /** The two encodings differ only on the empty bit string. */
  lemma {:induction false} BitsliceMatchesPath(k: Bits)
    ensures BitsliceToBytes(k) == EncodePath(k) <==> k != []
  {
  }

  /** The length byte is ignored on the way back, so only whole bytes survive. */
  lemma {:induction false} BitvecRoundTrip(k: Bits)
    requires k != []
    ensures BytesToBitvec(BitsliceToBytes(k)) == k <==> |k| % 8 == 0
  {
    assert BitsliceToBytes(k)[1..] == Pack(k);
    if |k| % 8 == 0 {
      assert 8 * |Pack(k)| == |k|;
      UnpackPack(k, []);
      assert Pack(k) + [] == Pack(k);
    }
  }
}
