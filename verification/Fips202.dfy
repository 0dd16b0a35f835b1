/** KECCAK[c] of FIPS 202 on bit strings, with the 1600-bit permutation (sections 3 to 5). */
module Fips202 {

  type Bits = seq<bool>

  /** A[x, y, z] for x, y < 5 and z < 64, section 3.1.1. */
  type Cube = (nat, nat, nat) -> bool

  type StateString = s: Bits | |s| == 1600 witness seq(1600, i => false)

  const W: nat := 64

  // ----- strings and arrays, sections 3.1.2 and 3.1.3 -----

  function ToCube(s: StateString): Cube {
    (x: nat, y: nat, z: nat) => x < 5 && y < 5 && z < W && s[W * (5 * y + x) + z]
  }

  function ToStateString(a: Cube): StateString {
    seq(1600, i requires 0 <= i < 1600 => a((i / W) % 5, i / (5 * W), i % W))
  }

  // ----- step mappings, section 3.2 -----

  function ColumnParity(a: Cube, x: nat, z: nat): bool {
    a(x, 0, z) != (a(x, 1, z) != (a(x, 2, z) != (a(x, 3, z) != a(x, 4, z))))
  }

  function Theta(a: Cube): Cube {
    (x: nat, y: nat, z: nat) => a(x, y, z) != (ColumnParity(a, (x + 4) % 5, z) != ColumnParity(a, (x + 1) % 5, (z + W - 1) % W))
  }

  /** Position of the walk of algorithm 2 after `t` moves (x, y) -> (y, 2x + 3y) from (1, 0). */
  function RhoWalk(t: nat): (p: (nat, nat))
    ensures p.0 < 5 && p.1 < 5
  {
    if t == 0 then (1, 0) else
    var q := RhoWalk(t - 1);
    (q.1, (2 * q.0 + 3 * q.1) % 5)
  }

  function Triangular(t: nat): nat {
    (t + 1) * (t + 2) / 2
  }

  /** How far algorithm 2 rotates lane (x, y) in its first `n` moves. */
  function RhoOffset(x: nat, y: nat, n: nat): nat {
    if n == 0 then 0
    else if RhoWalk(n - 1) == (x, y) then Triangular(n - 1)
    else RhoOffset(x, y, n - 1)
  }

  function Rotation(x: nat, y: nat): nat {
    RhoOffset(x, y, 24)
  }

  function Rho(a: Cube): Cube {
    (x: nat, y: nat, z: nat) => a(x, y, (z - Rotation(x, y)) % W)
  }

  /** The sheet that pi reads lane (x, y) from. */
  function PiSource(x: nat, y: nat): nat {
    (x + 3 * y) % 5
  }

  function Pi(a: Cube): Cube {
    (x: nat, y: nat, z: nat) => a(PiSource(x, y), x, z)
  }

  function Chi(a: Cube): Cube {
    (x: nat, y: nat, z: nat) => a(x, y, z) != (!a((x + 1) % 5, y, z) && a((x + 2) % 5, y, z))
  }

  type Register = r: Bits | |r| == 8 witness seq(8, i => false)

  /** One iteration of algorithm 5: prepend 0, fold R[8] into R[0], R[4], R[5] and R[6], truncate to eight
      bits. */
  function RegisterStep(r: Register): Register {
    [r[7], r[0], r[1], r[2], r[3] != r[7], r[4] != r[7], r[5] != r[7], r[6]]
  }

  function RegisterAfter(t: nat): Register {
    if t == 0 then [true, false, false, false, false, false, false, false] else RegisterStep(RegisterAfter(t - 1))
  }

  /** rc(t) of algorithm 5. */
  predicate Rc(t: nat) {
    t % 255 == 0 || RegisterAfter(t % 255)[0]
  }

  /** Bit `z` of RC for round `ir` of algorithm 6: RC[2^j - 1] = rc(j + 7 ir) for j = 0..6, all others 0. */
  predicate RoundConstantBit(ir: nat, z: nat) {
    match z
    case 0 => Rc(7 * ir)
    case 1 => Rc(1 + 7 * ir)
    case 3 => Rc(2 + 7 * ir)
    case 7 => Rc(3 + 7 * ir)
    case 15 => Rc(4 + 7 * ir)
    case 31 => Rc(5 + 7 * ir)
    case 63 => Rc(6 + 7 * ir)
    case _ => false
  }

  function Iota(a: Cube, ir: nat): Cube {
    (x: nat, y: nat, z: nat) => a(x, y, z) != (x == 0 && y == 0 && RoundConstantBit(ir, z))
  }

  // ----- the permutation, sections 3.3 and 3.4 -----

  function Rnd(a: Cube, ir: nat): Cube {
    Iota(Chi(Pi(Rho(Theta(a)))), ir)
  }

  function Log2(w: nat): nat {
    if w <= 1 then 0 else 1 + Log2(w / 2)
  }

  /** Rounds 0 up to `n`. */
  function FirstRounds(a: Cube, n: nat): Cube {
    if n == 0 then a else Rnd(FirstRounds(a, n - 1), n - 1)
  }

  /** KECCAK-f[1600], which has 12 + 2l rounds, l being the binary logarithm of the lane size. */
  function KeccakF(s: StateString): StateString {
    ToStateString(FirstRounds(ToCube(s), 12 + 2 * Log2(W)))
  }

  // ----- the sponge, sections 4, 5.1 and 5.2 -----

  /** pad10*1(x, m). */
  function Pad101(x: nat, m: nat): Bits
    requires x > 0
  {
    [true] + seq((-(m as int) - 2) % x, i => false) + [true]
  }

  /** S xor (P || 0...0). */
  function XorBlock(s: StateString, p: Bits): StateString {
    seq(1600, i requires 0 <= i < 1600 => s[i] != (i < |p| && p[i]))
  }

  /** The state once the blocks of `p` of `r` bits each are absorbed. */
  function AbsorbBlocks(r: nat, p: Bits): StateString
    requires r > 0
  {
    if |p| < r then seq(1600, i => false)
    else KeccakF(XorBlock(AbsorbBlocks(r, p[..|p| - r]), p[|p| - r..]))
  }

  /** KECCAK[c](N, d) for an output that one squeezing step yields. */
  function Keccak(c: nat, message: Bits, d: nat): Bits
    requires c < 1600 && d <= 1600 - c
  {
    AbsorbBlocks(1600 - c, message + Pad101(1600 - c, |message|))[..d]
  }
}
