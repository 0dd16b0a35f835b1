/** Keccak-f[1600] as `Keccak256::absorb` computes it, related to the bitwise step
    mappings of section 3.2 of FIPS 202. */
module KeccakF {
  import opened Bytes
  import opened Words
  import Fips202

  // ----- state[5][5]: five sheets of five lanes -----

  type Sheet = t: seq<Word> | |t| == 5 witness seq(5, i => Zero())
  type State = s: seq<Sheet> | |s| == 5 witness seq(5, i => seq(5, j => Zero()))

  function EmptyState(): State {
    seq(5, x => seq(5, y => Zero()))
  }

  lemma StateEq(s: State, t: State)
    requires forall x: nat, y: nat | x < 5 && y < 5 :: s[x][y] == t[x][y]
    ensures s == t
  {
    forall x | 0 <= x < 5
      ensures s[x] == t[x]
    {
    }
  }

  function Next(x: nat): (r: nat)
    requires x < 5
    ensures r < 5
  {
    (x + 1) % 5
  }

  function Prev(x: nat): (r: nat)
    requires x < 5
    ensures r < 5
  {
    (x + 4) % 5
  }

  // ----- theta -----

  function Parity(t: Sheet): Word {
    Xor(Xor(Xor(Xor(t[0], t[1]), t[2]), t[3]), t[4])
  }

  /** `c[x]` of the theta step. */
  function Parities(s: State): Sheet {
    seq(5, x requires 0 <= x < 5 => Parity(s[x]))
  }

  /** `d` of the theta step, from the column parities. */
  function Effect(c: Sheet, x: nat): Word
    requires x < 5
  {
    Xor(c[Prev(x)], RotBy(c[Next(x)], 1))
  }

  function AddToSheet(t: Sheet, d: Word): Sheet {
    seq(5, y requires 0 <= y < 5 => Xor(t[y], d))
  }

  function Theta(s: State): State {
    seq(5, x requires 0 <= x < 5 => AddToSheet(s[x], Effect(Parities(s), x)))
  }

  // ----- rho and pi -----

  const ROTATION: seq<seq<nat>> := [
    [ 0, 36,  3, 41, 18],
    [ 1, 44, 10, 45,  2],
    [62,  6, 43, 15, 61],
    [28, 55, 25, 21, 56],
    [27, 20, 39,  8, 14]]

  function Offset(x: nat, y: nat): (r: nat)
    requires x < 5 && y < 5
    ensures r < 64
  {
    ROTATION[x][y]
  }

  /** The sheet that supplies lane (x, y) of the result of pi. */
  function PiSheet(x: nat, y: nat): (r: nat)
    requires x < 5 && y < 5
    ensures r < 5
  {
    (x + 3 * y) % 5
  }

  /** Row 2x + 3y of sheet y receives lane (x, y). */
  function PiRow(x: nat, y: nat): (r: nat)
    requires x < 5 && y < 5
    ensures r < 5
  {
    (2 * x + 3 * y) % 5
  }

  lemma ModFivePlus(a: nat, t: int)
    requires a < 5
    ensures (a + 5 * t) % 5 == a
  {
  }

  lemma PiRowThenSheet(x: nat, y: nat)
    requires x < 5 && y < 5
    ensures PiSheet(y, PiRow(x, y)) == x
  {
    var k := (2 * x + 3 * y) / 5;
    ModFivePlus(x, x + 2 * y - 3 * k);
    assert y + 3 * PiRow(x, y) == x + 5 * (x + 2 * y - 3 * k);
  }

  lemma PiSheetThenRow(x: nat, y: nat)
    requires x < 5 && y < 5
    ensures PiRow(PiSheet(x, y), x) == y
  {
    var j := (x + 3 * y) / 5;
    ModFivePlus(y, x + y - 2 * j);
    assert 2 * PiSheet(x, y) + 3 * x == y + 5 * (x + y - 2 * j);
  }

  lemma PiIsPermutation(x: nat, y: nat)
    requires x < 5 && y < 5
    ensures PiSheet(y, PiRow(x, y)) == x
    ensures PiRow(PiSheet(x, y), x) == y
  {
    hide PiSheet, PiRow;
    PiRowThenSheet(x, y);
    PiSheetThenRow(x, y);
  }

  function RhoPiLane(s: State, x: nat, y: nat): Word
    requires x < 5 && y < 5
  {
    RotBy(s[PiSheet(x, y)][x], Offset(PiSheet(x, y), x))
  }

  function RhoPiSheet(s: State, x: nat): Sheet
    requires x < 5
  {
    seq(5, y requires 0 <= y < 5 => RhoPiLane(s, x, y))
  }

  function RhoPi(s: State): State {
    seq(5, x requires 0 <= x < 5 => RhoPiSheet(s, x))
  }

  // ----- chi -----

  function ChiLane(a: Word, b: Word, c: Word): Word {
    Xor(a, And(Not(b), c))
  }

  function ChiSheet(a: Sheet, b: Sheet, c: Sheet): Sheet {
    seq(5, y requires 0 <= y < 5 => ChiLane(a[y], b[y], c[y]))
  }

  function Chi(s: State): State {
    seq(5, x requires 0 <= x < 5 => ChiSheet(s[x], s[Next(x)], s[Next(Next(x))]))
  }

  // ----- iota -----

  /** One update of the eight-bit register `r`, computed in a wider type and truncated. */
  function LfsrStep(r: bv8): bv8 {
    ((((r as bv16) << 1) ^ (((r as bv16) >> 7) * 0x171)) & 0xFF) as bv8
  }

  function Lfsr(t: nat): bv8 {
    if t == 0 then 1 else LfsrStep(Lfsr(t - 1))
  }

  predicate LowBit(r: bv8) {
    r & 1 == 1
  }

  /** `(r & 1) << ((1 << j) - 1)`. */
  function IotaBit(bit: bool, j: nat): Word {
    seq(64, k requires 0 <= k < 64 => bit && k == Pow2(j) - 1)
  }

  /** The first `j` of the seven bits XORed into lane (0, 0) by round `ir`. */
  function RoundConstantUpTo(ir: nat, j: nat): Word {
    if j == 0 then Zero() else
    Xor(RoundConstantUpTo(ir, j - 1), IotaBit(LowBit(Lfsr(7 * ir + j - 1)), j - 1))
  }

  function RoundConstant(ir: nat): Word {
    RoundConstantUpTo(ir, 7)
  }

  function AddToOrigin(s: State, w: Word): State {
    s[0 := s[0][0 := Xor(s[0][0], w)]]
  }

  function Iota(s: State, ir: nat): State {
    AddToOrigin(s, RoundConstant(ir))
  }

  // ----- the permutation -----

  const NUM_ROUNDS: nat := 24

  function Round(s: State, ir: nat): State {
    Iota(Chi(RhoPi(Theta(s))), ir)
  }

  function Rounds(s: State, n: nat): State {
    if n == 0 then s else Round(Rounds(s, n - 1), n - 1)
  }

  function Permute(s: State): State {
    Rounds(s, NUM_ROUNDS)
  }

  // ----- refinement of the bitwise step mappings of FIPS 202 -----

  /** A[x, y, z] of FIPS 202, every index taken modulo its dimension. */
  function A(s: State, x: int, y: int, z: int): bool {
    At(s[x % 5][y % 5], z)
  }

  function ColumnSum(s: State, x: int, z: int): bool {
    (((A(s, x, 0, z) != A(s, x, 1, z)) != A(s, x, 2, z)) != A(s, x, 3, z)) != A(s, x, 4, z)
  }

  lemma ParityAt(t: Sheet, z: int)
    ensures At(Parity(t), z) == ((((At(t[0], z) != At(t[1], z)) != At(t[2], z)) != At(t[3], z)) != At(t[4], z))
  {
  }

  lemma ModFive(x: nat)
    requires x < 5
    ensures x % 5 == x && (x - 1) % 5 == Prev(x) && (x + 1) % 5 == Next(x) && (x + 2) % 5 == Next(Next(x))
  {
  }

  lemma ColumnSumIsParity(s: State, x: int, u: nat, z: int)
    requires u < 5 && x % 5 == u
    ensures ColumnSum(s, x, z) == At(Parity(s[u]), z)
  {
    ParityAt(s[u], z);
  }

  lemma ThetaBit(l: Word, c: Word, d: Word, z: int)
    ensures At(Xor(l, Xor(c, RotBy(d, 1))), z) == (At(l, z) != (At(c, z) != At(d, z - 1)))
  {
    RotByAt(d, 1, z);
  }

  lemma ThetaLane(s: State, x: nat, y: nat)
    requires x < 5 && y < 5
    ensures Theta(s)[x][y] == Xor(s[x][y], Xor(Parity(s[Prev(x)]), RotBy(Parity(s[Next(x)]), 1)))
  {
  }

  /** Theta of section 3.2.1: each bit is XORed with the parities of two columns. */
  lemma ThetaIsFips(s: State, x: nat, y: nat, z: int)
    requires x < 5 && y < 5
    ensures A(Theta(s), x, y, z)
         == (A(s, x, y, z) != (ColumnSum(s, x - 1, z) != ColumnSum(s, x + 1, z - 1)))
  {
    ModFive(x);
    ModFive(y);
    var c, d := Parity(s[Prev(x)]), Parity(s[Next(x)]);
    ColumnSumIsParity(s, x - 1, Prev(x), z);
    ColumnSumIsParity(s, x + 1, Next(x), z - 1);
    ThetaLane(s, x, y);
    ThetaBit(s[x][y], c, d, z);
  }

  lemma RhoWalkFirstHalf()
    ensures Fips202.RhoWalk(0) == (1, 0) && Fips202.RhoWalk(1) == (0, 2) && Fips202.RhoWalk(2) == (2, 1) && Fips202.RhoWalk(3) == (1, 2)
    ensures Fips202.RhoWalk(4) == (2, 3) && Fips202.RhoWalk(5) == (3, 3) && Fips202.RhoWalk(6) == (3, 0) && Fips202.RhoWalk(7) == (0, 1)
    ensures Fips202.RhoWalk(8) == (1, 3) && Fips202.RhoWalk(9) == (3, 1) && Fips202.RhoWalk(10) == (1, 4) && Fips202.RhoWalk(11) == (4, 4)
  {
  }

  lemma RhoWalkSecondHalf()
    ensures Fips202.RhoWalk(12) == (4, 0) && Fips202.RhoWalk(13) == (0, 3) && Fips202.RhoWalk(14) == (3, 4) && Fips202.RhoWalk(15) == (4, 3)
    ensures Fips202.RhoWalk(16) == (3, 2) && Fips202.RhoWalk(17) == (2, 2) && Fips202.RhoWalk(18) == (2, 0) && Fips202.RhoWalk(19) == (0, 4)
    ensures Fips202.RhoWalk(20) == (4, 2) && Fips202.RhoWalk(21) == (2, 4) && Fips202.RhoWalk(22) == (4, 1) && Fips202.RhoWalk(23) == (1, 1)
  {
    RhoWalkFirstHalf();
  }

  /** Number of moves after which the walk stands on lane (x, y). */
  function Moves(x: nat, y: nat): nat
    requires x < 5 && y < 5
  {
    [[0, 7, 1, 13, 19], [0, 23, 3, 8, 10], [18, 2, 17, 4, 21], [6, 9, 16, 5, 14], [12, 22, 20, 15, 11]][x][y]
  }

  /** Every lane but the origin is on the walk, and its table entry is the triangular number
      that section 3.2.2 assigns to that move; the origin is not rotated. */
  lemma OffsetIsFips(x: nat, y: nat)
    requires x < 5 && y < 5
    ensures Offset(0, 0) == 0
    ensures (x, y) != (0, 0) ==>
      Moves(x, y) < 24 && Fips202.RhoWalk(Moves(x, y)) == (x, y) && Offset(x, y) == Fips202.Triangular(Moves(x, y)) % 64
  {
    RhoWalkFirstHalf();
    RhoWalkSecondHalf();
  }

  lemma RhoPiAt(s: State, x: nat, y: nat)
    requires x < 5 && y < 5
    ensures RhoPi(s)[x][y] == RotBy(s[PiSheet(x, y)][x], Offset(PiSheet(x, y), x))
  {
  }

  lemma RotatedBit(s: State, t: State, x: nat, y: nat, u: nat, n: nat, z: int)
    requires x < 5 && y < 5 && u < 5
    requires t[x][y] == RotBy(s[u][x], n)
    ensures A(t, x, y, z) == A(s, u, x, z - n)
  {
    RotByAt(s[u][x], n, z);
    ModFive(x);
    ModFive(y);
    ModFive(u);
  }

  /** Rho then pi of sections 3.2.2 and 3.2.3. */
  lemma RhoPiIsFips(s: State, x: nat, y: nat, z: int)
    requires x < 5 && y < 5
    ensures A(RhoPi(s), x, y, z) == A(s, (x + 3 * y) % 5, x, z - Offset(PiSheet(x, y), x))
  {
    RhoPiAt(s, x, y);
    RotatedBit(s, RhoPi(s), x, y, PiSheet(x, y), Offset(PiSheet(x, y), x), z);
  }

  lemma ChiLaneAt(a: Word, b: Word, c: Word, z: int)
    ensures At(ChiLane(a, b, c), z) == (At(a, z) != (!At(b, z) && At(c, z)))
  {
  }

  /** Chi of section 3.2.4. */
  lemma ChiIsFips(s: State, x: nat, y: nat, z: int)
    requires x < 5 && y < 5
    ensures A(Chi(s), x, y, z) == (A(s, x, y, z) != (!A(s, x + 1, y, z) && A(s, x + 2, y, z)))
  {
    ModFive(x);
    ModFive(y);
    var a, b, c := s[x][y], s[Next(x)][y], s[Next(Next(x))][y];
    assert Chi(s)[x][y] == ChiLane(a, b, c);
    ChiLaneAt(a, b, c, z);
  }

  function RegisterBits(r: bv8): Fips202.Register {
    [r & 1 != 0, r & 2 != 0, r & 4 != 0, r & 8 != 0, r & 16 != 0, r & 32 != 0, r & 64 != 0, r & 128 != 0]
  }

  lemma LfsrStepIsFips(r: bv8)
    ensures RegisterBits(LfsrStep(r)) == Fips202.RegisterStep(RegisterBits(r))
  {
  }

  lemma {:induction false} LfsrIsFips(t: nat)
    ensures RegisterBits(Lfsr(t)) == Fips202.RegisterAfter(t)
  {
    if t > 0 {
      LfsrIsFips(t - 1);
      LfsrStepIsFips(Lfsr(t - 1));
    }
  }

  lemma LowBitIsRc(t: nat)
    requires t < 255
    ensures LowBit(Lfsr(t)) == Fips202.Rc(t)
  {
    hide LfsrStep, Fips202.RegisterStep, Fips202.RegisterAfter;
    LfsrIsFips(t);
    assert LowBit(Lfsr(t)) == RegisterBits(Lfsr(t))[0];
  }

  lemma {:induction false} Pow2Increases(i: nat, j: nat)
    requires i < j
    ensures Pow2(i) < Pow2(j)
  {
    if i < j - 1 {
      Pow2Increases(i, j - 1);
    }
  }

  lemma {:induction false} RoundConstantAtPower(ir: nat, n: nat, j: nat)
    requires Pow2(j) <= 64
    ensures RoundConstantUpTo(ir, n)[Pow2(j) - 1] == (j < n && LowBit(Lfsr(7 * ir + j)))
  {
    if n > 0 {
      RoundConstantAtPower(ir, n - 1, j);
      if j < n - 1 {
        Pow2Increases(j, n - 1);
      } else if j > n - 1 {
        Pow2Increases(n - 1, j);
      }
    }
  }

  lemma {:induction false} RoundConstantElsewhere(ir: nat, n: nat, z: nat)
    requires z < 64 && forall j: nat | j < n :: z != Pow2(j) - 1
    ensures !RoundConstantUpTo(ir, n)[z]
  {
    if n > 0 {
      RoundConstantElsewhere(ir, n - 1, z);
    }
  }

  lemma Powers()
    ensures Pow2(0) == 1 && Pow2(1) == 2 && Pow2(2) == 4 && Pow2(3) == 8
    ensures Pow2(4) == 16 && Pow2(5) == 32 && Pow2(6) == 64
  {
  }

  lemma RoundConstantIsFips(ir: nat, z: nat)
    requires ir < NUM_ROUNDS && z < 64
    ensures RoundConstant(ir)[z] == Fips202.RoundConstantBit(ir, z)
  {
    hide Fips202.Rc, LowBit, RoundConstantUpTo, Pow2;
    Powers();
    if j: nat :| j < 7 && z == Pow2(j) - 1 {
      RoundConstantAtPower(ir, 7, j);
      LowBitIsRc(j + 7 * ir);
    } else {
      RoundConstantElsewhere(ir, 7, z);
    }
  }

  lemma AddToOriginBit(s: State, w: Word, x: nat, y: nat, z: nat)
    requires x < 5 && y < 5 && z < 64
    ensures A(AddToOrigin(s, w), x, y, z) == (A(s, x, y, z) != (x == 0 && y == 0 && w[z]))
  {
    ModFive(x);
    ModFive(y);
    XorAt(s[0][0], w, z);
  }

  /** Iota of section 3.2.5. */
  lemma IotaIsFips(s: State, ir: nat, x: nat, y: nat, z: nat)
    requires x < 5 && y < 5 && z < 64 && ir < NUM_ROUNDS
    ensures A(Iota(s, ir), x, y, z)
         == (A(s, x, y, z) != (x == 0 && y == 0 && Fips202.RoundConstantBit(ir, z)))
  {
    hide AddToOrigin, Fips202.RoundConstantBit;
    RoundConstantIsFips(ir, z);
    AddToOriginBit(s, RoundConstant(ir), x, y, z);
  }
}
