/** The freestanding streaming hash: a context updated in place, proved to compute Sha256Standard.Sha256. */
module Sha256Stream {
  import opened Common
  import opened Sha256Standard

  function RotateRight(value: bv32, bits: bv32): bv32
    requires 0 < bits < 32
  {
    (value >> bits) | (value << (32 - bits))
  }

  /* The four mixes of the code, spelled with its own rotation. */

  function Sum0(a: bv32): bv32 { Xor3(RotateRight(a, 2), RotateRight(a, 13), RotateRight(a, 22)) }

  function Sum1(e: bv32): bv32 { Xor3(RotateRight(e, 6), RotateRight(e, 11), RotateRight(e, 25)) }

  function S0(x: bv32): bv32 { Xor3(RotateRight(x, 7), RotateRight(x, 18), x >> 3) }

  function S1(y: bv32): bv32 { Xor3(RotateRight(y, 17), RotateRight(y, 19), y >> 10) }

  lemma MixesAgree(x: bv32)
    ensures Sum0(x) == BigSigma0(x) && Sum1(x) == BigSigma1(x)
    ensures S0(x) == SmallSigma0(x) && S1(x) == SmallSigma1(x)
  {
    assert RotateRight(x, 2) == x.RotateRight(2) && RotateRight(x, 13) == x.RotateRight(13);
    assert RotateRight(x, 22) == x.RotateRight(22) && RotateRight(x, 6) == x.RotateRight(6);
    assert RotateRight(x, 11) == x.RotateRight(11) && RotateRight(x, 25) == x.RotateRight(25);
    assert RotateRight(x, 7) == x.RotateRight(7) && RotateRight(x, 18) == x.RotateRight(18);
    assert RotateRight(x, 17) == x.RotateRight(17) && RotateRight(x, 19) == x.RotateRight(19);
    hide RotateRight, Xor3;
  }

  lemma Plus4Reversed(p: bv32, q: bv32, r: bv32, s: bv32)
    ensures Plus4(p, q, r, s) == Plus4(s, r, q, p)
  {
  }

  /** The schedule recurrence in the order of additions of the code. */
  lemma ScheduleStep(block: Bytes, t: nat)
    requires |block| == 64 && 16 <= t < 64
    ensures Schedule(block, t) == Plus4(Schedule(block, t - 16), S0(Schedule(block, t - 15)),
                                        Schedule(block, t - 7), S1(Schedule(block, t - 2)))
  {
    hide Plus4, S0, S1, SmallSigma0, SmallSigma1, Word;
    var p, q, x, y := Schedule(block, t - 16), Schedule(block, t - 7), Schedule(block, t - 15), Schedule(block, t - 2);
    MixesAgree(x);
    MixesAgree(y);
    Plus4Reversed(SmallSigma1(y), q, SmallSigma0(x), p);
  }

  lemma ScheduleHead(block: Bytes, t: nat)
    requires |block| == 64 && t < 16
    ensures Schedule(block, t) == Word(block, 4 * t)
  {
  }

  ghost function StateOf(s: seq<bv32>): Vars
    requires |s| == 8
  {
    Vars(s[0], s[1], s[2], s[3], s[4], s[5], s[6], s[7])
  }

  method ExpandSchedule(block: Bytes) returns (words: array<bv32>)
    requires |block| == 64
    ensures fresh(words) && words.Length == 64
    ensures forall t :: 0 <= t < 64 ==> words[t] == Schedule(block, t)
  {
    hide Schedule, S0, S1, Plus4;
    words := new bv32[64];
    var index := 0;
    while index < 16
      invariant 0 <= index <= 16 && forall t :: 0 <= t < index ==> words[t] == Schedule(block, t)
    {
      var offset := index * 4;
      ScheduleHead(block, index);
      words[index] := ((block[offset] as bv32) << 24) | ((block[offset + 1] as bv32) << 16) |
                      ((block[offset + 2] as bv32) << 8) | (block[offset + 3] as bv32);
      index := index + 1;
    }
    hide Word;
    while index < 64
      invariant 16 <= index <= 64 && forall t :: 0 <= t < index ==> words[t] == Schedule(block, t)
    {
      var x := words[index - 15];
      var y := words[index - 2];
      ScheduleStep(block, index);
      words[index] := Plus4(words[index - 16], S0(x), words[index - 7], S1(y));
      index := index + 1;
    }
  }

  /** Unsigned 64-bit wrap-around. */
  function Wrap(n: nat): nat { n % 0x1_0000_0000_0000_0000 }

  lemma Remainder(n: nat, quotient: nat, rest: nat)
    requires n == 0x1_0000_0000_0000_0000 * quotient + rest && rest < 0x1_0000_0000_0000_0000
    ensures Wrap(n) == rest
  {
  }

  lemma Quotient(n: nat) returns (quotient: nat)
    ensures n == 0x1_0000_0000_0000_0000 * quotient + Wrap(n) && Wrap(n) < 0x1_0000_0000_0000_0000
  {
    quotient := n / 0x1_0000_0000_0000_0000;
  }

  lemma LengthAdds(n: nat, more: nat)
    ensures Wrap(Wrap(n) + more) == Wrap(n + more)
  {
    hide Wrap;
    var q := Quotient(n);
    var carry := Quotient(Wrap(n) + more);
    Remainder(n + more, q + carry, Wrap(Wrap(n) + more));
  }

  lemma BitCount(n: nat)
    ensures n < 0x2000_0000_0000_0000 ==> Wrap(Wrap(n) * 8) == 8 * n
  {
  }

  lemma PadCounts(n: nat, waiting: nat)
    requires waiting < 64 && waiting <= n && (n - waiting) % 64 == 0
    ensures ZeroCount(n) == if waiting + 1 > 56 then 64 - (waiting + 1) + 56 else 56 - (waiting + 1)
  {
  }

  lemma ZerosAdd(s: Bytes, m: nat, n: nat)
    ensures s + Zeros(0) == s && s + Zeros(m) + Zeros(n) == s + Zeros(m + n)
  {
  }

  /** One round as the code computes it. */
  function CodeRound(v: Vars, k: bv32, w: bv32): Vars {
    var temporary1 := Plus5(v.h, Sum1(v.e), Ch(v.e, v.f, v.g), k, w);
    var temporary2 := Plus(Sum0(v.a), Maj(v.a, v.b, v.c));
    Vars(Plus(temporary1, temporary2), v.a, v.b, v.c, Plus(v.d, temporary1), v.e, v.f, v.g)
  }

  lemma CodeRoundIs(v: Vars, k: bv32, w: bv32)
    ensures CodeRound(v, k, w) == Round(v, k, w)
  {
    MixesAgree(v.a);
    MixesAgree(v.e);
    hide Plus, Plus5, Ch, Maj, Sum0, Sum1, BigSigma0, BigSigma1;
  }

  method RunRounds(v: Vars, block: Bytes, words: array<bv32>) returns (r: Vars)
    requires |block| == 64 && words.Length == 64
    requires forall t :: 0 <= t < 64 ==> words[t] == Schedule(block, t)
    ensures r == Rounds(v, block, 64)
  {
    hide Plus, Plus5, Ch, Maj, Sum0, Sum1, Round, Schedule;
    var a, b, c, d, e, f, g, h := v.a, v.b, v.c, v.d, v.e, v.f, v.g, v.h;
    for index := 0 to 64
      invariant Vars(a, b, c, d, e, f, g, h) == Rounds(v, block, index)
    {
      CodeRoundIs(Vars(a, b, c, d, e, f, g, h), K[index], words[index]);
      var temporary1 := Plus5(h, Sum1(e), Ch(e, f, g), K[index], words[index]);
      var temporary2 := Plus(Sum0(a), Maj(a, b, c));
      h, g, f, e, d, c, b, a := g, f, e, Plus(d, temporary1), c, b, a, Plus(temporary1, temporary2);
    }
    r := Vars(a, b, c, d, e, f, g, h);
  }

  lemma EmitNothing()
    ensures Emit([]) == []
  {
  }

  lemma EmitStep(words: seq<bv32>, w: bv32)
    ensures Emit(words + [w]) == Emit(words) + WordBytes(w)
  {
    assert (words + [w])[..|words|] == words;
  }

  class Context {
    const state: array<bv32>
    const block: array<bv8>
    var length: nat
    var used: nat
    ghost var consumed: Bytes

    /** `stream` is hashed up to its last `waiting` bytes, which are at the start of `block`. */
    ghost predicate Holding(stream: Bytes, waiting: nat)
      reads state, block
    {
      && state.Length == 8 && block.Length == 64
      && waiting <= 64 && waiting <= |stream| && (|stream| - waiting) % 64 == 0
      && block[..waiting] == stream[|stream| - waiting..]
      && StateOf(state[..]) == Blocks(INITIAL, stream[..|stream| - waiting])
    }

    /** Between calls there is room in the block for at least one more byte. */
    ghost predicate Valid()
      reads this, state, block
    {
      Holding(consumed, used) && used < 64 && length == Wrap(|consumed|)
    }

    constructor ()
      ensures Valid() && fresh(state) && fresh(block) && consumed == []
    {
      state := new bv32[8] [INITIAL.a, INITIAL.b, INITIAL.c, INITIAL.d, INITIAL.e, INITIAL.f, INITIAL.g, INITIAL.h];
      block := new bv8[64];
      length, used, consumed := 0, 0, [];
    }

    /** The code adds the working variables to the old words; the standard adds the words to them. */
    method Transform()
      requires state.Length == 8 && block.Length == 64
      modifies state
      ensures StateOf(state[..]) == Compress(StateOf(old(state[..])), block[..])
    {
      hide Rounds, Schedule, Plus;
      var words := ExpandSchedule(block[..]);
      var v := Vars(state[0], state[1], state[2], state[3], state[4], state[5], state[6], state[7]);
      var r := RunRounds(v, block[..], words);
      AddInPlace(r, v);
    }

    lemma AddCommutes(x: Vars, y: Vars)
      ensures Add(x, y) == Add(y, x)
    {
    }

    method AddInPlace(r: Vars, ghost v: Vars)
      requires state.Length == 8 && v == StateOf(state[..])
      modifies state
      ensures StateOf(state[..]) == Add(r, v)
    {
      AddCommutes(r, v);
      hide Plus;
      state[0], state[1] := Plus(state[0], r.a), Plus(state[1], r.b);
      state[2], state[3] := Plus(state[2], r.c), Plus(state[3], r.d);
      state[4], state[5] := Plus(state[4], r.e), Plus(state[5], r.f);
      state[6], state[7] := Plus(state[6], r.g), Plus(state[7], r.h);
    }

    /** One more byte into the block. */
    method Place(ghost stream: Bytes, at: nat, value: bv8)
      requires Holding(stream, at) && at < 64
      modifies block
      ensures Holding(stream + [value], at + 1)
    {
      hide Blocks;
      block[at] := value;
      ghost var longer := stream + [value];
      assert longer[..|longer| - (at + 1)] == stream[..|stream| - at];
      assert block[..at] == stream[|stream| - at..];
      assert block[..at + 1] == block[..at] + [value];
    }

    method Store(ghost stream: Bytes, value: bv8)
      requires Holding(stream, used) && used < 64
      modifies this`used, block
      ensures Holding(stream + [value], used) && used == old(used) + 1
    {
      Place(stream, used, value);
      used := used + 1;
    }

    /** A full block goes through the compression function. */
    method Flush(ghost stream: Bytes)
      requires Holding(stream, 64)
      modifies this`used, state
      ensures Holding(stream, 0) && used == 0
    {
      Transform();
      used := 0;
      ghost var done := stream[..|stream| - 64];
      BlocksStep(INITIAL, done, block[..]);
      assert stream == done + block[..] && stream[..|stream| - 0] == stream;
      assert block[..0] == stream[|stream| - 0..];
    }

    /** Store a byte, and compress the block once it is full. */
    method Absorb(ghost stream: Bytes, value: bv8)
      requires Holding(stream, used) && used < 64
      modifies this`used, state, block
      ensures Holding(stream + [value], used) && used < 64
    {
      hide Holding;
      Store(stream, value);
      if used == 64 {
        Flush(stream + [value]);
      }
    }

    method Update(data: Bytes)
      requires Valid()
      modifies this`length, this`used, this`consumed, state, block
      ensures Valid() && consumed == old(consumed) + data
    {
      hide Holding, Wrap;
      LengthAdds(|consumed|, |data|);
      length := Wrap(length + |data|);
      var index := 0;
      ghost var before := consumed;
      assert before + data[..0] == before;
      while index < |data|
        invariant 0 <= index <= |data| && used < 64
        invariant Holding(before + data[..index], used)
        invariant consumed == before && length == Wrap(|before + data|)
      {
        ghost var stream := before + data[..index];
        Absorb(stream, data[index]);
        assert before + data[..index + 1] == stream + [data[index]];
        index := index + 1;
      }
      assert data[..|data|] == data;
      consumed := consumed + data;
    }

    /** Zero bytes up to position `limit` of the block. */
    method StoreZeros(ghost stream: Bytes, limit: nat)
      requires Holding(stream, used) && used <= limit <= 64
      modifies this`used, block
      ensures Holding(stream + Zeros(limit - old(used)), used) && used == limit
    {
      hide Holding;
      ghost var start := used;
      assert stream + Zeros(0) == stream;
      while used < limit
        invariant start <= used <= limit && Holding(stream + Zeros(used - start), used)
      {
        ghost var longer := stream + Zeros(used - start);
        Store(longer, 0);
        assert stream + Zeros(used - start) == longer + [0];
      }
    }

    lemma PadRoom(stream: Bytes, waiting: nat)
      requires Holding(stream, waiting) && waiting < 64
      ensures ZeroCount(|stream|) == if waiting + 1 > 56 then 64 - (waiting + 1) + 56 else 56 - (waiting + 1)
    {
      PadCounts(|stream|, waiting);
    }

    /** The 0x80 byte and the zeros that follow it, with a block flushed in between if there is no room. */
    method Pad() returns (ghost stream: Bytes)
      requires Valid()
      modifies this`used, state, block
      ensures stream == consumed + [0x80] + Zeros(ZeroCount(|consumed|)) && Holding(stream, 56)
    {
      hide Holding, ZeroCount, Wrap, Zeros;
      PadRoom(consumed, used);
      Store(consumed, 0x80);
      stream := consumed + [0x80];
      ghost var zeros := 0;
      if used > 56 {
        zeros := 64 - used;
        StoreZeros(stream, 64);
        stream := stream + Zeros(zeros);
        Flush(stream);
      }
      ghost var more := 56 - used;
      StoreZeros(stream, 56);
      ZerosAdd(consumed + [0x80], zeros, more);
      stream := stream + Zeros(more);
    }

    method StoreLength(ghost stream: Bytes, bits: nat)
      requires Holding(stream, 56)
      modifies block
      ensures Holding(stream + Be64(bits), 64)
    {
      hide Holding, ByteOf;
      var index := 0;
      assert stream + Be64(bits)[..0] == stream;
      while index < 8
        invariant 0 <= index <= 8 && Holding(stream + Be64(bits)[..index], 56 + index)
      {
        Place(stream + Be64(bits)[..index], 56 + index, ByteOf(bits, index));
        assert Be64(bits)[..index + 1] == Be64(bits)[..index] + [ByteOf(bits, index)];
        assert stream + Be64(bits)[..index + 1] == stream + Be64(bits)[..index] + [ByteOf(bits, index)];
        index := index + 1;
      }
      assert Be64(bits)[..8] == Be64(bits);
    }

    method WriteDigest(digest: array<bv8>)
      requires state.Length == 8 && digest.Length == 32
      modifies digest
      ensures digest[..] == Digest(StateOf(state[..]))
    {
      hide WordBytes, Emit;
      EmitNothing();
      var index := 0;
      while index < 8
        invariant 0 <= index <= 8 && digest[..4 * index] == Emit(state[..index])
      {
        var bytes := WordBytes(state[index]);
        ghost var before := digest[..4 * index];
        digest[4 * index], digest[4 * index + 1], digest[4 * index + 2], digest[4 * index + 3] :=
          bytes[0], bytes[1], bytes[2], bytes[3];
        assert digest[..4 * index] == before;
        assert digest[..4 * index + 4] == before + bytes;
        EmitStep(state[..index], state[index]);
        assert state[..index + 1] == state[..index] + [state[index]];
        index := index + 1;
      }
      assert digest[..32] == digest[..] && state[..8] == state[..];
      ghost var v := StateOf(state[..]);
      assert state[..] == [v.a, v.b, v.c, v.d, v.e, v.f, v.g, v.h];
    }

    /**
     * The digest of everything consumed, whatever the update calls it came in: SHA-256 itself below 2^61 bytes,
     * and above that SHA-256's compression of the same padding with the bit count taken modulo 2^64.
     */
    method Final(digest: array<bv8>)
      requires Valid() && digest.Length == 32 && digest != block
      modifies this`used, state, block, digest
      ensures digest[..] == Digest(Blocks(INITIAL, consumed + Padding(|consumed|, Wrap(length * 8))))
      ensures |consumed| < 0x2000_0000_0000_0000 ==> digest[..] == Sha256(consumed)
    {
      hide Wrap, ZeroCount, Holding, Blocks;
      var bits := Wrap(length * 8);
      BitCount(|consumed|);
      ghost var stream := Pad();
      StoreLength(stream, bits);
      ghost var padded := stream + Be64(bits);
      assert padded == consumed + Padding(|consumed|, bits);
      Flush(padded);
      assert padded[..|padded| - 0] == padded;
      hide Blocks, Padding, Digest;
      WriteDigest(digest);
    }
  }

  /** Digest of a message handed over in pieces: init, one update a piece, final. */
  method HashPieces(pieces: seq<Bytes>) returns (digest: array<bv8>)
    ensures fresh(digest) && digest.Length == 32
    ensures |Joined(pieces)| < 0x2000_0000_0000_0000 ==> digest[..] == Sha256(Joined(pieces))
  {
    hide Sha256, Blocks, Digest, Padding, Wrap, Context.Valid, Context.Holding;
    digest := new bv8[32];
    var context := new Context();
    for index := 0 to |pieces|
      invariant context.Valid() && fresh(context) && fresh(context.state) && fresh(context.block)
      invariant context.block != digest && context.consumed == Joined(pieces[..index])
    {
      context.Update(pieces[index]);
      assert pieces[..index + 1][..index] == pieces[..index];
    }
    assert pieces[..|pieces|] == pieces;
    context.Final(digest);
  }

  function Joined(pieces: seq<Bytes>): Bytes {
    if |pieces| == 0 then [] else Joined(pieces[..|pieces| - 1]) + pieces[|pieces| - 1]
  }

  /** The comparison that looks at every byte whatever it finds: a difference in any one of them is kept to the end. */
  method BytesEqual(left: Bytes, right: Bytes) returns (equal: bool)
    requires |left| == |right|
    ensures equal == (left == right)
  {
    var difference: bv8 := 0;
    for index := 0 to |left|
      invariant difference == 0 <==> left[..index] == right[..index]
    {
      DifferenceKept(difference, left[index], right[index]);
      difference := difference | (left[index] ^ right[index]);
      assert left[..index + 1] == left[..index] + [left[index]];
      assert right[..index + 1] == right[..index] + [right[index]];
    }
    assert left[..|left|] == left && right[..|right|] == right;
    return difference == 0;
  }

  lemma DifferenceKept(difference: bv8, x: bv8, y: bv8)
    ensures difference | (x ^ y) == 0 <==> difference == 0 && x == y
  {
  }
}
