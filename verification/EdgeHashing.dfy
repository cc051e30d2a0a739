/** The edge hash as computed through 32-byte buffers. */
module EdgeHashing {
  import opened BitStrings
  import opened Felts
  import opened PathCodec

  function FromBytesBe(s: ByteVec): Felt {
    (BytesNumber(s) % PRIME) as Felt
  }

  /** Reducing at every bit or once at the end is the same. */
  lemma {:induction false} PathFeltNumber(path: Bits)
    ensures PathFelt(path) as int == Number(path) % PRIME
  {
    if path != [] {
      var rest := path[..|path| - 1];
      PathFeltNumber(rest);
      var bit := if path[|path| - 1] then 1 else 0;
      DoubleMod(Number(rest), bit);
    }
  }

  lemma {:induction false} DoubleMod(n: nat, bit: nat)
    ensures (2 * (n % PRIME) + bit) % PRIME == (2 * n + bit) % PRIME
  {
    var q := n / PRIME;
    assert 2 * n + bit == 2 * (n % PRIME) + bit + 2 * q * PRIME;
    AddMultiple(2 * (n % PRIME) + bit, 2 * q);
  }

  lemma {:induction false} AddMultiple(x: nat, q: nat)
    ensures (x + q * PRIME) % PRIME == x % PRIME
  {
    if q > 0 {
      AddMultiple(x, q - 1);
      assert x + q * PRIME == (x + (q - 1) * PRIME) + PRIME;
    }
  }

  lemma {:induction false} LeadingZeros(zeros: nat, path: Bits)
    ensures Number(seq(zeros, _ => false) + path) == Number(path)
  {
    var all := seq(zeros, _ => false) + path;
    if path == [] {
      assert all == seq(zeros, _ => false);
      ZeroNumber(zeros);
    } else {
      LeadingZeros(zeros, path[..|path| - 1]);
      assert all[..|all| - 1] == seq(zeros, _ => false) + path[..|path| - 1];
    }
  }

  /** The last n bits of a number are added to the rest times 2^n. */
  lemma {:induction false} NumberSplit(bits: Bits, n: nat)
    requires n <= |bits|
    ensures Number(bits) == Pow2(n) * Number(bits[..|bits| - n]) + Number(bits[|bits| - n..])
  {
    if n == 0 {
      assert bits[..|bits|] == bits && bits[|bits|..] == [];
    } else {
      var rest, tail, high := bits[..|bits| - 1], bits[|bits| - n..], bits[..|bits| - n];
      NumberSplit(rest, n - 1);
      assert rest[..|rest| - (n - 1)] == high && rest[|rest| - (n - 1)..] == tail[..n - 1]
        && tail[n - 1] == bits[|bits| - 1];
      var bit := if tail[n - 1] then 1 else 0;
      assert Number(tail) == 2 * Number(tail[..n - 1]) + bit && Number(bits) == 2 * Number(rest) + bit;
      hide Number;
      DoubleProduct(Pow2(n - 1), Number(high));
    }
  }

  lemma {:induction false} DoubleProduct(p: nat, h: nat)
    ensures (2 * p) * h == 2 * (p * h)
  {
  }

  lemma {:induction false} PackAt(bits: Bits, i: nat)
    requires i < (|bits| + 7) / 8
    ensures Pack(bits)[i] == ToByte(Chunk(bits, i))
  {
  }

  /** Packing whole bytes: the bytes of all but the last eight bits, then the byte of these. */
  lemma {:induction false} PackSplit(bits: Bits)
    requires |bits| % 8 == 0 && bits != []
    ensures Pack(bits) == Pack(bits[..|bits| - 8]) + [ToByte(bits[|bits| - 8..])]
  {
    hide BitOf, ToByte;
    var rest, last, n := bits[..|bits| - 8], bits[|bits| - 8..], |bits| / 8;
    PackAt(bits, n - 1);
    assert Chunk(bits, n - 1) == last;
    forall i | 0 <= i < n - 1 ensures Pack(bits)[i] == Pack(rest)[i] {
      PackAt(bits, i);
      PackAt(rest, i);
      assert Chunk(bits, i) == Chunk(rest, i);
    }
  }

  /** Whole bytes of bits and the bits themselves are the same number. */
  lemma {:induction false} PackNumber(bits: Bits)
    requires |bits| % 8 == 0
    ensures BytesNumber(Pack(bits)) == Number(bits)
  {
    hide Pack, ToByte, BitOf;
    if bits != [] {
      var rest, last := bits[..|bits| - 8], bits[|bits| - 8..];
      PackNumber(rest);
      PackSplit(bits);
      NumberSplit(bits, 8);
      ToByteNumber(last);
      assert Pow2(8) == 256;
      assert Pack(bits)[..|Pack(bits)| - 1] == Pack(rest);
    }
  }

  lemma {:induction false} SmallNumber(n: nat, s: ByteVec)
    requires n < 256 && |s| == 32 && s[31] as int == n && forall i :: 0 <= i < 31 ==> s[i] == 0
    ensures BytesNumber(s) == n
  {
    ZeroBytes(s[..31]);
  }

  lemma {:induction false} ZeroBytes(s: ByteVec)
    requires forall i :: 0 <= i < |s| ==> s[i] == 0
    ensures BytesNumber(s) == 0
  {
    if s != [] { ZeroBytes(s[..|s| - 1]); }
  }

  lemma {:induction false} PathBuffer(path: Bits, bits: Bits)
    requires |path| <= 256 && bits == seq(256 - |path|, _ => false) + path
    ensures FromBytesBe(Pack(bits)) == PathFelt(path)
  {
    hide Pack, Number, BytesNumber;
    LeadingZeros(256 - |path|, path);
    PackNumber(bits);
    PathFeltNumber(path);
  }

  /** The path is copied into the tail of a zeroed buffer of 256 bits, its length into the last byte of another
      buffer. */
  method HashEdge(H: StarkHash, path: Bits, childHash: Felt) returns (hash: Felt)
    requires |path| <= 251
    ensures hash == HashEdgeNode(H, path, childHash)
    ensures hash as int == (H(childHash, (Number(path) % PRIME) as Felt) as int + |path|) % PRIME
  {
    PathFeltNumber(path);
    hide Number;
    hide Pack, BytesNumber, PathFelt;
    var bits := new bool[256](_ => false);
    forall i | 0 <= i < |path| {
      bits[256 - |path| + i] := path[i];
    }
    assert bits[..] == seq(256 - |path|, _ => false) + path;
    PathBuffer(path, bits[..]);
    var feltPath := FromBytesBe(Pack(bits[..]));
    var bytes := new Byte[32](_ => 0);
    bytes[31] := |path| as Byte;
    SmallNumber(|path|, bytes[..]);
    var length := FromBytesBe(bytes[..]);
    hash := ((H(childHash, feltPath) as int + length as int) % PRIME) as Felt;
  }
}
