/** Hash derivation of the Bloom filter (`createHashes`): salted digest
    rounds, each 16-byte digest cut into four big-endian 32-bit ints. */
module Hashing {
  import opened JavaInt

  /** Length in bytes of an MD5 digest. */
  const DIGEST_LENGTH: nat := 16

  /** The output of one digest computation. */
  type Block = s: seq<int8> | |s| == DIGEST_LENGTH witness seq(16, _ => 0)

  /** The message digest (MD5 in the source), treated as an arbitrary
      deterministic function from the bytes fed to it to 16 bytes. */
  type Digest = seq<int8> -> Block

  /** The salt byte fed to the digest before the data in round r:
      it starts at 0 and is incremented as a Java byte, so it wraps after 127. */
  function Salt(r: nat): (s: int8)
    ensures Unsigned8(s) == r % 0x100
    ensures r < 0x80 ==> s == r
  {
    Signed8(r % 0x100)
  }

  lemma SaltNext(r: nat)
    ensures Inc8(Salt(r)) == Salt(r + 1)
  {
  }

  /** The bytes digested in round r. */
  function RoundInput(data: seq<int8>, r: nat): seq<int8>
  {
    [Salt(r)] + data
  }

  /** The unsigned big-endian value of a byte string. */
  function BigEndian(s: seq<int8>): (v: nat)
    ensures v < Pow2(8 * |s|)
  {
    if s == [] then 0
    else
      var a := BigEndian(s[..|s| - 1]);
      Pow2Add(8 * (|s| - 1), 8);
      AppendByteBound(a, Pow2(8 * (|s| - 1)), Unsigned8(s[|s| - 1]));
      a * 0x100 + Unsigned8(s[|s| - 1])
  }

  /** Chunk i of a digest, read as a big-endian signed 32-bit int: byte 4i is
      the most significant, byte 4i + 3 the least, and every byte contributes
      its unsigned value. */
  function Chunk(d: Block, i: nat): (r: int32)
    requires i < DIGEST_LENGTH / 4
    ensures Unsigned32(r) ==
      Unsigned8(d[4 * i]) * 0x100_0000 + Unsigned8(d[4 * i + 1]) * 0x1_0000 +
      Unsigned8(d[4 * i + 2]) * 0x100 + Unsigned8(d[4 * i + 3])
  {
    var w := d[4 * i..4 * i + 4];
    BigEndianOfWord(w);
    UnsignedOfSigned32(BigEndian(w));
    Signed32(BigEndian(w))
  }

  /** Hash value t: chunk t % 4 of the digest of round t / 4. */
  function HashAt(md: Digest, data: seq<int8>, t: nat): int32
  {
    Chunk(md(RoundInput(data, t / 4)), t % 4)
  }

  /** The first n hash values derived from data, in generation order. */
  function Hashes(md: Digest, data: seq<int8>, n: nat): (hs: seq<int32>)
    ensures |hs| == n
  {
    seq(n, t requires 0 <= t => HashAt(md, data, t))
  }

  /** Hash 4r + c is chunk c of the digest of round r: each round yields four
      consecutive values, and rounds run in salt order. */
  lemma HashesByRound(md: Digest, data: seq<int8>, n: nat, r: nat, c: nat)
    requires c < DIGEST_LENGTH / 4 && 4 * r + c < n
    ensures Hashes(md, data, n)[4 * r + c] == Chunk(md([Salt(r)] + data), c)
  {
    assert (4 * r + c) / 4 == r && (4 * r + c) % 4 == c;
  }

  /** The number of digest rounds needed for n hash values. */
  function Rounds(n: nat): nat
  {
    (n + 3) / 4
  }

  /** `createHashes(data, hashes)`: runs salted digest rounds until `hashes`
      values have been packed into the result array. The ghost result
      `inputs` lists, in order, what each round fed to the digest. */
  method CreateHashes(md: Digest, data: seq<int8>, hashes: int32)
    returns (result: array<int32>, ghost inputs: seq<seq<int8>>)
    requires hashes >= 0
    ensures result.Length == hashes as int
    ensures result[..] == Hashes(md, data, hashes as int)
    ensures |inputs| == Rounds(hashes as int)
    ensures forall r :: 0 <= r < |inputs| ==> inputs[r] == RoundInput(data, r)
  {
    result := new int32[hashes];
    var k := 0;
    var salt: int8 := 0;
    inputs := [];
    while k < hashes as int
      invariant 0 <= k <= hashes as int
      invariant k == if 4 * |inputs| < hashes as int then 4 * |inputs| else hashes as int
      invariant 4 * |inputs| < hashes as int + 4
      invariant salt == Salt(|inputs|)
      invariant forall r :: 0 <= r < |inputs| ==> inputs[r] == RoundInput(data, r)
      invariant forall t :: 0 <= t < k ==> result[t] == HashAt(md, data, t)
      decreases hashes as int - k
    {
      inputs := inputs + [[salt] + data];
      var digest := md([salt] + data);
      SaltNext(|inputs| - 1);
      salt := Inc8(salt);
      var i := 0;
      while i < |digest| / 4 && k < hashes as int
        invariant 0 <= i <= |digest| / 4
        invariant k == 4 * (|inputs| - 1) + i <= hashes as int
        invariant forall t :: 0 <= t < k ==> result[t] == HashAt(md, data, t)
      {
        var h := PackChunk(digest, i);
        assert k / 4 == |inputs| - 1 && k % 4 == i;
        result[k] := h;
        k := k + 1;
        i := i + 1;
      }
    }
    assert result[..] == Hashes(md, data, hashes as int);
  }

  /** The inner loop of `createHashes`: packs bytes 4i..4i+3 of a digest,
      most significant first, each masked to 0..255 before it is shifted in. */
  method PackChunk(digest: Block, i: nat) returns (h: int32)
    requires i < DIGEST_LENGTH / 4
    ensures h == Chunk(digest, i)
  {
    h := 0;
    var j := i * 4;
    while j < (i + 1) * 4
      invariant i * 4 <= j <= (i + 1) * 4
      invariant BigEndian(digest[i * 4..j]) < 0x1_0000_0000
      invariant h == Signed32(BigEndian(digest[i * 4..j]))
    {
      PackStep(digest[i * 4..j + 1]);
      assert digest[i * 4..j + 1][..j - i * 4] == digest[i * 4..j];
      h := BitOr(ShiftLeft(h, 8), BitAnd(digest[j], 0xFF));
      j := j + 1;
    }
  }

  /** One step of the packing loop: shifting the accumulator left by 8 and
      OR-ing in the masked next byte extends its big-endian value. */
  lemma PackStep(s: seq<int8>)
    requires 0 < |s| <= 4
    ensures BigEndian(s) < 0x1_0000_0000
    ensures BitOr(ShiftLeft(Signed32(BigEndian(s[..|s| - 1])), 8), BitAnd(s[|s| - 1], 0xFF))
            == Signed32(BigEndian(s))
  {
    BigEndianFits(s);
    Pow2Of32();
    var a := BigEndian(s[..|s| - 1]);
    assert a < Pow2(24) by {
      if |s| < 4 {
        Pow2Add(8 * (|s| - 1), 24 - 8 * (|s| - 1));
      }
    }
    MaskByte(s[|s| - 1]);
    ShiftInByte(a, Unsigned8(s[|s| - 1]));
  }

  lemma AppendByteBound(a: nat, p: nat, u: nat)
    requires a < p && u < 0x100
    ensures a * 0x100 + u < p * Pow2(8)
  {
    assert Pow2(8) == 0x100;
  }

  lemma BigEndianFits(s: seq<int8>)
    requires |s| <= 4
    ensures BigEndian(s) < 0x1_0000_0000
  {
    Pow2Of32();
    if |s| < 4 {
      Pow2Add(8 * |s|, 32 - 8 * |s|);
    }
  }

  /** The big-endian value of four bytes, written out. */
  lemma BigEndianOfWord(w: seq<int8>)
    requires |w| == 4
    ensures BigEndian(w) == Unsigned8(w[0]) * 0x100_0000 + Unsigned8(w[1]) * 0x1_0000 +
      Unsigned8(w[2]) * 0x100 + Unsigned8(w[3])
    ensures BigEndian(w) < 0x1_0000_0000
  {
    assert w[..3][..2][..1][..0] == [];
    assert BigEndian(w[..1]) == Unsigned8(w[0]);
    assert BigEndian(w[..2]) == Unsigned8(w[0]) * 0x100 + Unsigned8(w[1]) by {
      assert w[..2][..1] == w[..1];
    }
    assert BigEndian(w[..3]) == BigEndian(w[..2]) * 0x100 + Unsigned8(w[2]) by {
      assert w[..3][..2] == w[..2];
    }
    assert BigEndian(w) == BigEndian(w[..3]) * 0x100 + Unsigned8(w[3]);
    BigEndianFits(w);
  }

  /** The four bytes of an int, most significant first. */
  function WordBytes(x: int32): (b: seq<int8>)
    ensures |b| == 4
  {
    var u := Unsigned32(x);
    [Signed8(u / 0x100_0000), Signed8(u / 0x1_0000 % 0x100), Signed8(u / 0x100 % 0x100), Signed8(u % 0x100)]
  }

  /** Packing is lossless: splitting chunk i back into bytes gives bytes 4i..4i+3
      of the digest, in order. */
  lemma ChunkBytes(d: Block, i: nat)
    requires i < DIGEST_LENGTH / 4
    ensures WordBytes(Chunk(d, i)) == d[4 * i..4 * i + 4]
  {
    ByteDigits(Unsigned8(d[4 * i]), Unsigned8(d[4 * i + 1]), Unsigned8(d[4 * i + 2]), Unsigned8(d[4 * i + 3]));
  }

  /** Base-256 digits of a four-digit number. */
  lemma ByteDigits(a: nat, b: nat, c: nat, e: nat)
    requires a < 0x100 && b < 0x100 && c < 0x100 && e < 0x100
    ensures var u := a * 0x100_0000 + b * 0x1_0000 + c * 0x100 + e;
      u / 0x100_0000 == a && u / 0x1_0000 % 0x100 == b && u / 0x100 % 0x100 == c && u % 0x100 == e
  {
    var u := a * 0x100_0000 + b * 0x1_0000 + c * 0x100 + e;
    DivUnique(u, 0x100_0000, a, b * 0x1_0000 + c * 0x100 + e);
    DivUnique(u, 0x1_0000, a * 0x100 + b, c * 0x100 + e);
    ModUnique(a * 0x100 + b, 0x100, a, b);
    DivUnique(u, 0x100, a * 0x1_0000 + b * 0x100 + c, e);
    ModUnique(a * 0x1_0000 + b * 0x100 + c, 0x100, a * 0x100 + b, c);
    ModUnique(u, 0x100, a * 0x1_0000 + b * 0x100 + c, e);
  }
}
