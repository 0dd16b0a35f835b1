/** `Keccak256::getHash` refines the sponge of sections 4 and 5.1 of FIPS 202 with rate 1088
    and an empty domain suffix. */
module KeccakSponge {
  import opened Bytes
  import opened Words
  import opened KeccakF
  import opened KeccakAbsorb

  // ----- specification: bit strings -----

  type Bits = seq<bool>

  const RATE: nat := 1088
  const BLOCK_SIZE: nat := 136

  /** Bit `k` of a number. */
  predicate ByteBit(b: nat, k: nat) {
    if k == 0 then b % 2 == 1 else ByteBit(b / 2, k - 1)
  }

  /** The bit string of a byte string, each byte least significant bit first. */
  function ToBits(m: seq<byte>): (r: Bits)
    ensures |r| == 8 * |m|
  {
    seq(8 * |m|, i requires 0 <= i < 8 * |m| => ByteBit(m[i / 8], i % 8))
  }

  /** pad10*1(1088, m) of section 5.1. */
  function Pad(m: int): Bits {
    [true] + seq((-m - 2) % RATE, i => false) + [true]
  }

  /** Bit `i` of a state written out as a string, section 3.1.3. */
  function StateBit(s: State, i: nat): bool
    requires i < 1600
  {
    s[(i / 64) % 5][i / 320][i % 64]
  }

  function XorBitsLane(w: Word, p: Bits, base: nat): Word {
    seq(64, z requires 0 <= z < 64 => w[z] != (base + z < |p| && p[base + z]))
  }

  function XorBitsSheet(t: Sheet, p: Bits, x: nat): Sheet {
    seq(5, y requires 0 <= y < 5 => XorBitsLane(t[y], p, 64 * (5 * y + x)))
  }

  /** S xor (P || 0...0). */
  function XorBits(s: State, p: Bits): State {
    seq(5, x requires 0 <= x < 5 => XorBitsSheet(s[x], p, x))
  }

  /** The absorbing phase of algorithm 8 on a string of whole blocks. */
  function Absorbed(p: Bits): State
    requires |p| % RATE == 0
  {
    if p == [] then EmptyState()
    else Permute(XorBits(Absorbed(p[..|p| - RATE]), p[|p| - RATE..]))
  }

  /** The number whose bits are given, least significant first. */
  function FromBits(p: Bits): (v: nat)
    ensures v < Pow2(|p|)
  {
    if p == [] then 0 else (if p[0] then 1 else 0) + 2 * FromBits(p[1..])
  }

  lemma {:induction false} FromBitsBit(p: Bits, k: nat)
    requires k < |p|
    ensures ByteBit(FromBits(p), k) == p[k]
  {
    if k > 0 {
      FromBitsBit(p[1..], k - 1);
    }
  }

  function OutputBits(s: State, i: nat): (p: Bits)
    requires i < 32
    ensures |p| == 8
  {
    seq(8, k requires 0 <= k < 8 => StateBit(s, 8 * i + k))
  }

  function OutputByte(s: State, i: nat): byte
    requires i < 32
  {
    EightBits();
    FromBits(OutputBits(s, i))
  }

  function Output(s: State): Digest {
    seq(32, i requires 0 <= i < 32 => OutputByte(s, i))
  }

  lemma PadLength(m: int)
    ensures (m + |Pad(m)|) % RATE == 0
    ensures 2 <= |Pad(m)| <= RATE + 1
  {
    var j := (-m - 2) % RATE;
    var q := (-m - 2) / RATE;
    assert -m - 2 == RATE * q + j;
    assert m + |Pad(m)| == RATE * -q;
  }

  /** KECCAK[512](M, 256): the first 256 bits of the sponge over M || pad10*1. */
  function Keccak256(msg: seq<byte>): Digest {
    PadLength(8 * |msg|);
    Output(Absorbed(ToBits(msg) + Pad(8 * |msg|)))
  }

  /** Output bytes carry the state bits in order: bit `k` of byte `i` is bit 8i + k of the state. */
  lemma OutputBit(s: State, i: nat, k: nat)
    requires i < 32 && k < 8
    ensures ByteBit(Output(s)[i], k) == StateBit(s, 8 * i + k)
  {
    hide StateBit, FromBits;
    FromBitsBit(OutputBits(s, i), k);
  }

  // ----- bits of states -----

  lemma StateEqBits(s: State, t: State)
    requires forall i: nat | i < 1600 :: StateBit(s, i) == StateBit(t, i)
    ensures s == t
  {
    forall x: nat, y: nat | x < 5 && y < 5
      ensures s[x][y] == t[x][y]
    {
      forall z: nat | z < 64
        ensures s[x][y][z] == t[x][y][z]
      {
        StringIndex(s, x, y, z);
        StringIndex(t, x, y, z);
      }
    }
    StateEq(s, t);
  }

  lemma StringIndex(s: State, x: nat, y: nat, z: nat)
    requires x < 5 && y < 5 && z < 64
    ensures StateBit(s, 64 * (5 * y + x) + z) == s[x][y][z]
  {
    var i := 64 * (5 * y + x) + z;
    assert i / 64 == 5 * y + x;
    assert i / 320 == y;
  }

  lemma XorBitsBit(s: State, p: Bits, i: nat)
    requires i < 1600
    ensures StateBit(XorBits(s, p), i) == (StateBit(s, i) != (i < |p| && p[i]))
  {
    var x, y, z := (i / 64) % 5, i / 320, i % 64;
    assert i == 64 * (5 * y + x) + z;
    assert XorBits(s, p)[x][y] == XorBitsLane(s[x][y], p, 64 * (5 * y + x));
  }

  // ----- one message byte -----

  /** `static_cast<uint64_t>(b)`. */
  function ByteWord(b: byte): Word {
    seq(64, k requires 0 <= k < 64 => k < 8 && ByteBit(b, k))
  }

  function XorByte(s: State, off: nat, b: byte): State
    requires off < BLOCK_SIZE
  {
    var j := off / 8;
    s[j % 5 := s[j % 5][j / 5 := Xor(s[j % 5][j / 5], Shl(ByteWord(b), 8 * (off % 8)))]]
  }

  lemma XorByteBit(s: State, off: nat, b: byte, i: nat)
    requires off < BLOCK_SIZE && i < 1600
    ensures StateBit(XorByte(s, off, b), i)
         == (StateBit(s, i) != (8 * off <= i < 8 * off + 8 && ByteBit(b, i - 8 * off)))
  {
    hide ByteBit;
    var j, x, y, z := off / 8, (i / 64) % 5, i / 320, i % 64;
    assert i == 64 * (5 * y + x) + z;
    var w := Shl(ByteWord(b), 8 * (off % 8));
    if x == j % 5 && y == j / 5 {
      assert i / 64 == j;
      assert XorByte(s, off, b)[x][y] == Xor(s[x][y], w);
      assert w[z] == (8 * (off % 8) <= z < 8 * (off % 8) + 8 && ByteBit(b, z - 8 * (off % 8)));
    } else {
      assert i / 64 != j;
      assert XorByte(s, off, b)[x][y] == s[x][y];
    }
  }

  function ByteBits(b: byte): Bits {
    seq(8, k requires 0 <= k < 8 => ByteBit(b, k))
  }

  /** XORing one more byte at its offset extends the XORed string by that byte's bits. */
  lemma AbsorbByte(s: State, p: Bits, off: nat, b: byte)
    requires off < BLOCK_SIZE && |p| == 8 * off
    ensures XorByte(XorBits(s, p), off, b) == XorBits(s, p + ByteBits(b))
  {
    hide StateBit, XorByte, XorBits, ByteBit;
    forall i: nat | i < 1600
      ensures StateBit(XorByte(XorBits(s, p), off, b), i) == StateBit(XorBits(s, p + ByteBits(b)), i)
    {
      XorByteBit(XorBits(s, p), off, b, i);
      XorBitsBit(s, p, i);
      XorBitsBit(s, p + ByteBits(b), i);
    }
    StateEqBits(XorByte(XorBits(s, p), off, b), XorBits(s, p + ByteBits(b)));
  }

  lemma PaddingBytes(k: nat)
    requires k < 8
    ensures ByteBit(0x01, k) == (k == 0)
    ensures ByteBit(0x80, k) == (k == 7)
  {
    assert forall j: nat :: !ByteBit(0, j) by {
      forall j: nat
        ensures !ByteBit(0, j)
      {
        ZeroBit(j);
      }
    }
    if k >= 1 { assert ByteBit(0x80, k) == ByteBit(0x40, k - 1); }
    if k >= 2 { assert ByteBit(0x40, k - 1) == ByteBit(0x20, k - 2); }
    if k >= 3 { assert ByteBit(0x20, k - 2) == ByteBit(0x10, k - 3); }
    if k >= 4 { assert ByteBit(0x10, k - 3) == ByteBit(0x08, k - 4); }
    if k >= 5 { assert ByteBit(0x08, k - 4) == ByteBit(0x04, k - 5); }
    if k >= 6 { assert ByteBit(0x04, k - 5) == ByteBit(0x02, k - 6); }
    if k >= 7 { assert ByteBit(0x02, k - 6) == ByteBit(0x01, k - 7); }
  }

  lemma {:induction false} ZeroBit(j: nat)
    ensures !ByteBit(0, j)
  {
    if j > 0 {
      ZeroBit(j - 1);
    }
  }

  /** The bytes 0x01 after the message and 0x80 at the end of the block are pad10*1, also when they meet. */
  lemma AbsorbPadding(s: State, p: Bits, off: nat, m: nat)
    requires off < BLOCK_SIZE && |p| == 8 * off && m % RATE == 8 * off
    ensures XorByte(XorByte(XorBits(s, p), off, 0x01), BLOCK_SIZE - 1, 0x80) == XorBits(s, p + Pad(m))
  {
    PadLengthInBlock(m, off);
    var t := XorBits(s, p);
    var u := XorByte(t, off, 0x01);
    var q := p + Pad(m);
    forall i: nat | i < 1600
      ensures StateBit(XorByte(u, BLOCK_SIZE - 1, 0x80), i) == StateBit(XorBits(s, q), i)
    {
      AbsorbPaddingBit(s, p, off, m, i);
    }
    StateEqBits(XorByte(u, BLOCK_SIZE - 1, 0x80), XorBits(s, q));
  }

  lemma PadLengthInBlock(m: nat, off: nat)
    requires off < BLOCK_SIZE && m % RATE == 8 * off
    ensures |Pad(m)| == RATE - 8 * off
  {
    var n: int := m;
    var k := n / RATE;
    assert -n - 2 == RATE * (-k - 1) + (RATE - 8 * off - 2);
  }

  lemma AbsorbPaddingBit(s: State, p: Bits, off: nat, m: nat, i: nat)
    requires off < BLOCK_SIZE && |p| == 8 * off && m % RATE == 8 * off && i < 1600
    ensures StateBit(XorByte(XorByte(XorBits(s, p), off, 0x01), BLOCK_SIZE - 1, 0x80), i)
         == StateBit(XorBits(s, p + Pad(m)), i)
  {
    hide StateBit, XorByte, XorBits, ByteBit;
    PadLengthInBlock(m, off);
    var t := XorBits(s, p);
    var u := XorByte(t, off, 0x01);
    XorByteBit(u, BLOCK_SIZE - 1, 0x80, i);
    XorByteBit(t, off, 0x01, i);
    XorBitsBit(s, p, i);
    XorBitsBit(s, p + Pad(m), i);
    if 8 * off <= i < 8 * off + 8 {
      PaddingBytes(i - 8 * off);
    }
    if 1080 <= i < 1088 {
      PaddingBytes(i - 1080);
    }
  }

  // ----- getHash -----

  method XorByteInPlace(a: array2<Word>, off: nat, b: byte)
    requires FiveByFive(a) && off < BLOCK_SIZE
    modifies a
    ensures Snapshot(a) == XorByte(old(Snapshot(a)), off, b)
  {
    hide Snapshot, SnapshotSheet, Xor, Shl, ByteWord;
    ghost var s := Snapshot(a);
    SnapshotElements(a);
    var j := off / 8;
    a[j % 5, j / 5] := Xor(a[j % 5, j / 5], Shl(ByteWord(b), 8 * (off % 8)));
    SnapshotIs(a, XorByte(s, off, b));
  }

  lemma AbsorbedBlock(p: Bits, block: Bits)
    requires |p| % RATE == 0 && |block| == RATE
    ensures Absorbed(p + block) == Permute(XorBits(Absorbed(p), block))
  {
    hide Permute, XorBits;
    assert (p + block)[..|p|] == p && (p + block)[|p|..] == block;
  }

  lemma EmptyXor(s: State)
    ensures XorBits(s, []) == s
  {
    hide StateBit, XorBits;
    forall i: nat | i < 1600
      ensures StateBit(XorBits(s, []), i) == StateBit(s, i)
    {
      XorBitsBit(s, [], i);
    }
    StateEqBits(XorBits(s, []), s);
  }

  /** `start` counts the bytes of absorbed blocks; the bytes up to `i` are XORed in but not yet permuted. */
  ghost predicate InBlock(msg: seq<byte>, start: nat, i: nat) {
    start <= i <= |msg| && start % BLOCK_SIZE == 0
  }

  ghost function Pending(msg: seq<byte>, start: nat, i: nat): State
    requires InBlock(msg, start, i)
  {
    XorBits(Absorbed(ToBits(msg)[..8 * start]), ToBits(msg)[8 * start..8 * i])
  }

  lemma PendingNothing(msg: seq<byte>, start: nat)
    requires InBlock(msg, start, start)
    ensures Pending(msg, start, start) == Absorbed(ToBits(msg)[..8 * start])
  {
    hide XorBits, Absorbed;
    EmptyXor(Absorbed(ToBits(msg)[..8 * start]));
    assert ToBits(msg)[8 * start..8 * start] == [];
  }

  lemma PendingByte(msg: seq<byte>, start: nat, i: nat)
    requires InBlock(msg, start, i) && i < |msg| && i - start < BLOCK_SIZE
    ensures Pending(msg, start, i + 1) == XorByte(Pending(msg, start, i), i - start, msg[i])
  {
    hide XorBits, XorByte, Absorbed;
    AbsorbByte(Absorbed(ToBits(msg)[..8 * start]), ToBits(msg)[8 * start..8 * i], i - start, msg[i]);
    NextByteBits(msg, start, i);
  }

  lemma NextByteBits(msg: seq<byte>, start: nat, i: nat)
    requires start <= i < |msg|
    ensures ToBits(msg)[8 * start..8 * i] + ByteBits(msg[i]) == ToBits(msg)[8 * start..8 * (i + 1)]
  {
    hide ByteBit;
  }

  lemma PendingBlock(msg: seq<byte>, start: nat)
    requires InBlock(msg, start, start + BLOCK_SIZE)
    ensures Pending(msg, start + BLOCK_SIZE, start + BLOCK_SIZE) == Permute(Pending(msg, start, start + BLOCK_SIZE))
  {
    hide XorBits, Absorbed, Permute, ToBits;
    var bits, end := ToBits(msg), start + BLOCK_SIZE;
    PendingNothing(msg, end);
    AbsorbedBlock(bits[..8 * start], bits[8 * start..8 * end]);
    assert bits[..8 * start] + bits[8 * start..8 * end] == bits[..8 * end];
  }

  lemma BlockOffset(start: nat, end: nat)
    requires start % BLOCK_SIZE == 0 && start <= end < start + BLOCK_SIZE
    ensures 8 * end % RATE == 8 * (end - start) && 8 * start % RATE == 0
  {
    assert 8 * start == RATE * (start / BLOCK_SIZE);
  }

  lemma PendingFinish(msg: seq<byte>, start: nat)
    requires InBlock(msg, start, |msg|) && |msg| - start < BLOCK_SIZE
    ensures Keccak256(msg)
         == Output(Permute(XorByte(XorByte(Pending(msg, start, |msg|), |msg| - start, 0x01), BLOCK_SIZE - 1, 0x80)))
  {
    hide XorBits, XorByte, Absorbed, Permute, ToBits, Output, Pad;
    var bits, m := ToBits(msg), 8 * |msg|;
    var whole, tail := bits[..8 * start], bits[8 * start..8 * |msg|];
    BlockOffset(start, |msg|);
    AbsorbPadding(Absorbed(whole), tail, |msg| - start, m);
    PadLengthInBlock(m, |msg| - start);
    AbsorbedBlock(whole, tail + Pad(m));
    assert whole + tail == bits;
    assert whole + (tail + Pad(m)) == whole + tail + Pad(m);
  }

  /** For every message of every length the hash is the specification sponge. */
  method GetHash(msg: seq<byte>, hashResult: array<byte>)
    requires hashResult.Length == 32
    modifies hashResult
    ensures hashResult[..] == Keccak256(msg)
  {
    hide Snapshot, SnapshotSheet, Permute, XorByte, Pending, Output, Keccak256;
    var state := new Word[5, 5]((i, j) => Zero());
    SnapshotIs(state, EmptyState());
    ghost var start := 0;
    var blockOff := 0;
    PendingNothing(msg, 0);
    for i := 0 to |msg|
      invariant 0 <= blockOff < BLOCK_SIZE && start + blockOff == i
      invariant InBlock(msg, start, i)
      invariant Snapshot(state) == Pending(msg, start, i)
    {
      PendingByte(msg, start, i);
      XorByteInPlace(state, blockOff, msg[i]);
      blockOff := blockOff + 1;
      if blockOff == BLOCK_SIZE {
        Absorb(state);
        blockOff := 0;
        PendingBlock(msg, start);
        start := i + 1;
      }
    }
    PendingFinish(msg, start);
    XorByteInPlace(state, blockOff, 0x01);
    blockOff := BLOCK_SIZE - 1;
    XorByteInPlace(state, blockOff, 0x80);
    Absorb(state);
    Squeeze(state, hashResult);
  }

  /** `static_cast<uint8_t>(w)`. */
  function LowByte(w: Word): byte {
    EightBits();
    FromBits(w[..8])
  }

  lemma LowByteIsOutput(s: State, i: nat)
    requires i < 32
    ensures LowByte(Shr(s[i / 8][0], 8 * (i % 8))) == Output(s)[i]
  {
    var w := Shr(s[i / 8][0], 8 * (i % 8));
    forall k | 0 <= k < 8
      ensures w[k] == StateBit(s, 8 * i + k)
    {
      assert (8 * i + k) / 64 == i / 8 && (8 * i + k) % 64 == 8 * (i % 8) + k && (8 * i + k) / 320 == 0;
    }
    assert w[..8] == OutputBits(s, i);
  }

  method Squeeze(state: array2<Word>, hashResult: array<byte>)
    requires FiveByFive(state) && hashResult.Length == 32
    modifies hashResult
    ensures hashResult[..] == Output(Snapshot(state))
  {
    hide Snapshot, SnapshotSheet, Shr, Output, LowByte;
    ghost var s := Snapshot(state);
    SnapshotElements(state);
    for i := 0 to 32
      invariant forall k: nat | k < i :: hashResult[k] == Output(s)[k]
      invariant Snapshot(state) == s
    {
      var j := i / 8;
      LowByteIsOutput(s, i);
      hashResult[i] := LowByte(Shr(state[j % 5, j / 5], 8 * (i % 8)));
    }
  }
}
