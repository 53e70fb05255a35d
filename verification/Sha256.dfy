/** SHA-256 as FIPS 180-4 defines it: sections 4.1.2, 4.2.2, 5.1.1, 5.2.1, 5.3.3 and 6.2.2. */
module Sha256Standard {
  import opened Common

  const K: seq<bv32> :=
    [0x428a2f98, 0x71374491, 0xb5c0fbcf, 0xe9b5dba5, 0x3956c25b, 0x59f111f1, 0x923f82a4, 0xab1c5ed5,
     0xd807aa98, 0x12835b01, 0x243185be, 0x550c7dc3, 0x72be5d74, 0x80deb1fe, 0x9bdc06a7, 0xc19bf174] +
    [0xe49b69c1, 0xefbe4786, 0x0fc19dc6, 0x240ca1cc, 0x2de92c6f, 0x4a7484aa, 0x5cb0a9dc, 0x76f988da,
     0x983e5152, 0xa831c66d, 0xb00327c8, 0xbf597fc7, 0xc6e00bf3, 0xd5a79147, 0x06ca6351, 0x14292967] +
    [0x27b70a85, 0x2e1b2138, 0x4d2c6dfc, 0x53380d13, 0x650a7354, 0x766a0abb, 0x81c2c92e, 0x92722c85,
     0xa2bfe8a1, 0xa81a664b, 0xc24b8b70, 0xc76c51a3, 0xd192e819, 0xd6990624, 0xf40e3585, 0x106aa070] +
    [0x19a4c116, 0x1e376c08, 0x2748774c, 0x34b0bcb5, 0x391c0cb3, 0x4ed8aa4a, 0x5b9cca4f, 0x682e6ff3,
     0x748f82ee, 0x78a5636f, 0x84c87814, 0x8cc70208, 0x90befffa, 0xa4506ceb, 0xbef9a3f7, 0xc67178f2]

  /** The eight working variables, and the eight words of a hash value. */
  datatype Vars = Vars(a: bv32, b: bv32, c: bv32, d: bv32, e: bv32, f: bv32, g: bv32, h: bv32)

  const INITIAL := Vars(0x6a09e667, 0xbb67ae85, 0x3c6ef372, 0xa54ff53a, 0x510e527f, 0x9b05688c, 0x1f83d9ab, 0x5be0cd19)

  /* Addition modulo 2^32 of two, four and five words. */

  function Plus(x: bv32, y: bv32): bv32 { x + y }

  function Plus4(p: bv32, q: bv32, r: bv32, s: bv32): bv32 { p + q + r + s }

  function Plus5(p: bv32, q: bv32, r: bv32, s: bv32, t: bv32): bv32 { p + q + r + s + t }

  function Ch(x: bv32, y: bv32, z: bv32): bv32 { (x & y) ^ (!x & z) }

  function Maj(x: bv32, y: bv32, z: bv32): bv32 { (x & y) ^ (x & z) ^ (y & z) }

  function Xor3(x: bv32, y: bv32, z: bv32): bv32 { x ^ y ^ z }

  function BigSigma0(x: bv32): bv32 { Xor3(x.RotateRight(2), x.RotateRight(13), x.RotateRight(22)) }

  function BigSigma1(x: bv32): bv32 { Xor3(x.RotateRight(6), x.RotateRight(11), x.RotateRight(25)) }

  function SmallSigma0(x: bv32): bv32 { Xor3(x.RotateRight(7), x.RotateRight(18), x >> 3) }

  function SmallSigma1(x: bv32): bv32 { Xor3(x.RotateRight(17), x.RotateRight(19), x >> 10) }

  function Word(b: Bytes, at: nat): bv32
    requires at + 4 <= |b|
  {
    ((b[at] as bv32) << 24) | ((b[at + 1] as bv32) << 16) | ((b[at + 2] as bv32) << 8) | (b[at + 3] as bv32)
  }

  /** Word t of the message schedule of a block. */
  function Schedule(block: Bytes, t: nat): bv32
    requires |block| == 64 && t < 64
  {
    if t < 16 then Word(block, 4 * t)
    else Plus4(SmallSigma1(Schedule(block, t - 2)), Schedule(block, t - 7),
               SmallSigma0(Schedule(block, t - 15)), Schedule(block, t - 16))
  }

  function Round(v: Vars, k: bv32, w: bv32): Vars {
    var t1 := Plus5(v.h, BigSigma1(v.e), Ch(v.e, v.f, v.g), k, w);
    var t2 := Plus(BigSigma0(v.a), Maj(v.a, v.b, v.c));
    Vars(Plus(t1, t2), v.a, v.b, v.c, Plus(v.d, t1), v.e, v.f, v.g)
  }

  function Rounds(v: Vars, block: Bytes, t: nat): Vars
    requires |block| == 64 && t <= 64
  {
    if t == 0 then v else Round(Rounds(v, block, t - 1), K[t - 1], Schedule(block, t - 1))
  }

  function Add(x: Vars, y: Vars): Vars {
    Vars(Plus(x.a, y.a), Plus(x.b, y.b), Plus(x.c, y.c), Plus(x.d, y.d),
         Plus(x.e, y.e), Plus(x.f, y.f), Plus(x.g, y.g), Plus(x.h, y.h))
  }

  function Compress(v: Vars, block: Bytes): Vars
    requires |block| == 64
  {
    Add(Rounds(v, block, 64), v)
  }

  /** The hash value after all the blocks of `blocks`. */
  function Blocks(v: Vars, blocks: Bytes): Vars
    requires |blocks| % 64 == 0
  {
    if |blocks| == 0 then v
    else Compress(Blocks(v, blocks[..|blocks| - 64]), blocks[|blocks| - 64..])
  }

  function Zeros(n: nat): (z: Bytes)
    ensures |z| == n && forall i :: 0 <= i < n ==> z[i] == 0
  {
    seq(n, _ => 0)
  }

  /** 2 to the power 56 - 8 i. */
  function Weight(i: nat): (w: nat)
    requires i < 8
    ensures w > 0
  {
    match i
    case 0 => 0x100_0000_0000_0000
    case 1 => 0x1_0000_0000_0000
    case 2 => 0x100_0000_0000
    case 3 => 0x1_0000_0000
    case 4 => 0x100_0000
    case 5 => 0x1_0000
    case 6 => 0x100
    case _ => 1
  }

  function ByteOf(n: nat, i: nat): bv8
    requires i < 8
  {
    Byte(n / Weight(i) % 256)
  }

  /** A 64-bit number, most significant byte first. */
  function Be64(n: nat): (r: Bytes)
    ensures |r| == 8
  {
    seq(8, i requires 0 <= i < 8 => ByteOf(n, i))
  }

  /** The smallest number of zero bytes that brings a message and its 0x80 byte to 56 bytes past a block boundary. */
  function ZeroCount(n: nat): (k: nat)
    ensures (n + 1 + k) % 64 == 56 && k < 64
  {
    (119 - n % 64) % 64
  }

  function Padding(n: nat, bits: nat): (p: Bytes)
    ensures (n + |p|) % 64 == 0
  {
    [0x80] + Zeros(ZeroCount(n)) + Be64(bits)
  }

  function WordBytes(w: bv32): (r: Bytes)
    ensures |r| == 4
  {
    [(w >> 24) as bv8, ((w >> 16) & 0xff) as bv8, ((w >> 8) & 0xff) as bv8, (w & 0xff) as bv8]
  }

  function Emit(words: seq<bv32>): (r: Bytes)
    ensures |r| == 4 * |words|
  {
    if |words| == 0 then [] else Emit(words[..|words| - 1]) + WordBytes(words[|words| - 1])
  }

  function Digest(v: Vars): (r: Bytes)
    ensures |r| == 32
  {
    Emit([v.a, v.b, v.c, v.d, v.e, v.f, v.g, v.h])
  }

  /** SHA-256 of a message of fewer than 2^64 bits. */
  function Sha256(m: Bytes): Bytes
    requires |m| < 0x2000_0000_0000_0000
  {
    Digest(Blocks(INITIAL, m + Padding(|m|, 8 * |m|)))
  }

  function FromBe(b: Bytes): nat {
    if |b| == 0 then 0 else FromBe(b[..|b| - 1]) * 256 + b[|b| - 1] as int
  }

  lemma ByteStep(n: nat, i: nat)
    requires i < 7
    ensures n / Weight(i) * 256 + n / Weight(i + 1) % 256 == n / Weight(i + 1)
  {
    match i
    case 0 => assert n / 0x100_0000_0000_0000 == n / 0x1_0000_0000_0000 / 256;
    case 1 => assert n / 0x1_0000_0000_0000 == n / 0x100_0000_0000 / 256;
    case 2 => assert n / 0x100_0000_0000 == n / 0x1_0000_0000 / 256;
    case 3 => assert n / 0x1_0000_0000 == n / 0x100_0000 / 256;
    case 4 => assert n / 0x100_0000 == n / 0x1_0000 / 256;
    case 5 => assert n / 0x1_0000 == n / 0x100 / 256;
    case _ =>
  }

  lemma {:induction false} Be64Prefix(n: nat, i: nat)
    requires n < 0x1_0000_0000_0000_0000 && i < 8
    ensures FromBe(Be64(n)[..i + 1]) == n / Weight(i)
  {
    hide *;
    var b := Be64(n)[..i + 1];
    assert b[..i] == Be64(n)[..i] && b[i] == Be64(n)[i];
    FromBeLast(b);
    Be64At(n, i);
    if i > 0 {
      Be64Prefix(n, i - 1);
      ByteStep(n, i - 1);
    } else {
      FirstByte(n);
    }
  }

  lemma FromBeLast(b: Bytes)
    requires |b| > 0
    ensures FromBe(b) == FromBe(b[..|b| - 1]) * 256 + b[|b| - 1] as int
    ensures |b| == 1 ==> FromBe(b) == b[0] as int
  {
  }

  lemma Be64At(n: nat, i: nat)
    requires i < 8
    ensures Be64(n)[i] as int == n / Weight(i) % 256
  {
    hide Weight;
  }

  lemma FirstByte(n: nat)
    requires n < 0x1_0000_0000_0000_0000
    ensures n / Weight(0) == n / Weight(0) % 256
  {
  }

  /** The length field reads back, most significant byte first, as the number it was made from. */
  lemma Be64Value(n: nat)
    requires n < 0x1_0000_0000_0000_0000
    ensures FromBe(Be64(n)) == n
  {
    Be64Prefix(n, 7);
    assert Be64(n)[..8] == Be64(n);
  }

  /** Choice takes the bits of y where x is set and those of z elsewhere. */
  lemma ChoiceBits(x: bv32, y: bv32, z: bv32)
    ensures Ch(x, y, z) & x == y & x
    ensures Ch(x, y, z) & !x == z & !x
  {
  }

  /** A bit of the majority is set where any two have it set. */
  lemma MajorityBits(x: bv32, y: bv32, z: bv32)
    ensures Maj(x, y, z) == (x & y) | (x & z) | (y & z)
  {
  }

  lemma BlocksStep(v: Vars, blocks: Bytes, block: Bytes)
    requires |blocks| % 64 == 0 && |block| == 64
    ensures Blocks(v, blocks + block) == Compress(Blocks(v, blocks), block)
  {
    assert (blocks + block)[..|blocks|] == blocks && (blocks + block)[|blocks|..] == block;
  }
}
