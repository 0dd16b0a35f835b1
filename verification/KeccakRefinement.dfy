/** The permutation and the hash of the model are those of FIPS 202, bit for bit. */
module KeccakRefinement {
  import opened Bytes
  import opened Words
  import opened KeccakF
  import opened KeccakSponge
  import Fips202

  // ----- one state in two forms -----

  ghost predicate SameBit(a: Fips202.Cube, s: State, x: nat, y: nat, z: nat)
    requires x < 5 && y < 5 && z < 64
  {
    a(x, y, z) == s[x][y][z]
  }

  ghost predicate Agrees(a: Fips202.Cube, s: State) {
    forall x: nat, y: nat, z: nat | x < 5 && y < 5 && z < 64 :: SameBit(a, s, x, y, z)
  }

  /** An index taken modulo its dimension. */
  lemma AgreesAt(a: Fips202.Cube, s: State, x: nat, y: nat, z: int, i: int)
    requires Agrees(a, s) && x < 5 && y < 5 && i % 5 == x
    ensures a(x, y, z % 64) == A(s, i, y, z)
  {
    assert SameBit(a, s, x, y, z % 64);
  }

  lemma ColumnsAgree(a: Fips202.Cube, s: State, x: nat, z: int, i: int)
    requires Agrees(a, s) && x < 5 && i % 5 == x
    ensures Fips202.ColumnParity(a, x, z % 64) == ColumnSum(s, i, z)
  {
    hide A, Agrees;
    AgreesAt(a, s, x, 0, z, i);
    AgreesAt(a, s, x, 1, z, i);
    AgreesAt(a, s, x, 2, z, i);
    AgreesAt(a, s, x, 3, z, i);
    AgreesAt(a, s, x, 4, z, i);
  }

  // ----- the step mappings -----

  lemma ThetaAgrees(a: Fips202.Cube, s: State)
    requires Agrees(a, s)
    ensures Agrees(Fips202.Theta(a), Theta(s))
  {
    hide Theta, ColumnSum, Fips202.ColumnParity, A;
    forall x: nat, y: nat, z: nat | x < 5 && y < 5 && z < 64
      ensures SameBit(Fips202.Theta(a), Theta(s), x, y, z)
    {
      ThetaIsFips(s, x, y, z);
      Inside(s, x, y, z);
      Inside(Theta(s), x, y, z);
      assert SameBit(a, s, x, y, z);
      ColumnsAgree(a, s, (x + 4) % 5, z, x - 1);
      ColumnsAgree(a, s, (x + 1) % 5, z - 1, x + 1);
    }
  }

  lemma Inside(s: State, x: nat, y: nat, z: nat)
    requires x < 5 && y < 5 && z < 64
    ensures A(s, x, y, z) == s[x][y][z]
  {
  }

  /** The walk of algorithm 2 stands on each lane at one time only. */
  lemma WalkMoves(t: nat)
    requires t < 24
    ensures var p := Fips202.RhoWalk(t); p != (0, 0) && Moves(p.0, p.1) == t
  {
    hide Fips202.RhoWalk;
    RhoWalkFirstHalf();
    RhoWalkSecondHalf();
  }

  lemma {:induction false} RhoOffsetUpTo(x: nat, y: nat, n: nat)
    requires x < 5 && y < 5 && n <= 24
    ensures Fips202.RhoOffset(x, y, n) == if (x, y) != (0, 0) && Moves(x, y) < n then Fips202.Triangular(Moves(x, y)) else 0
  {
    hide Fips202.RhoWalk, Fips202.Triangular, Moves;
    if n > 0 {
      RhoOffsetUpTo(x, y, n - 1);
      WalkMoves(n - 1);
      OffsetIsFips(x, y);
    }
  }

  lemma RhoOffsetIs(x: nat, y: nat)
    requires x < 5 && y < 5
    ensures Fips202.Rotation(x, y) % 64 == Offset(x, y)
  {
    hide Fips202.RhoWalk, Fips202.RhoOffset, Fips202.Triangular, Moves, Offset;
    RhoOffsetUpTo(x, y, 24);
    OffsetIsFips(x, y);
  }

  lemma ModDifference(z: int, a: int, b: int)
    requires a % 64 == b
    ensures (z - a) % 64 == (z - b) % 64
  {
    ModSub(-a, -z);
    ModShift(z - b, -(a / 64));
    assert z - a == z - b + 64 * -(a / 64);
  }

  lemma RhoPiBit(a: Fips202.Cube, s: State, x: nat, y: nat, z: nat)
    requires Agrees(a, s) && x < 5 && y < 5 && z < 64
    ensures Fips202.Pi(Fips202.Rho(a))(x, y, z) == A(RhoPi(s), x, y, z)
  {
    hide RhoPi, A, Agrees, Offset, Fips202.Rotation, Fips202.PiSource, Fips202.Pi, Fips202.Rho;
    PiSourceIs(x, y);
    var u := PiSheet(x, y);
    var n := Fips202.Rotation(u, x);
    RhoPiIsFips(s, x, y, z);
    RhoOffsetIs(u, x);
    ModDifference(z, n, Offset(u, x));
    AgreesAt(a, s, u, x, z - Offset(u, x), u);
    RhoPiApplied(a, x, y, z);
  }

  lemma RhoPiApplied(a: Fips202.Cube, x: nat, y: nat, z: nat)
    ensures var u := Fips202.PiSource(x, y);
      Fips202.Pi(Fips202.Rho(a))(x, y, z) == a(u, x, (z - Fips202.Rotation(u, x)) % 64)
  {
    hide Fips202.Rotation, Fips202.PiSource;
  }

  lemma PiSourceIs(x: nat, y: nat)
    requires x < 5 && y < 5
    ensures Fips202.PiSource(x, y) == PiSheet(x, y) == (x + 3 * y) % 5
  {
  }

  lemma RhoPiAgrees(a: Fips202.Cube, s: State)
    requires Agrees(a, s)
    ensures Agrees(Fips202.Pi(Fips202.Rho(a)), RhoPi(s))
  {
    hide RhoPi, A, Fips202.Pi, Fips202.Rho;
    forall x: nat, y: nat, z: nat | x < 5 && y < 5 && z < 64
      ensures SameBit(Fips202.Pi(Fips202.Rho(a)), RhoPi(s), x, y, z)
    {
      RhoPiBit(a, s, x, y, z);
      Inside(RhoPi(s), x, y, z);
    }
  }

  lemma ChiBit(a: Fips202.Cube, s: State, x: nat, y: nat, z: nat)
    requires Agrees(a, s) && x < 5 && y < 5 && z < 64
    ensures Fips202.Chi(a)(x, y, z) == A(Chi(s), x, y, z)
  {
    hide Chi, A, Agrees, Fips202.Chi;
    ChiApplied(a, x, y, z);
    ChiIsFips(s, x, y, z);
    AgreesAt(a, s, x, y, z, x);
    AgreesAt(a, s, (x + 1) % 5, y, z, x + 1);
    AgreesAt(a, s, (x + 2) % 5, y, z, x + 2);
  }

  lemma ChiApplied(a: Fips202.Cube, x: nat, y: nat, z: nat)
    ensures Fips202.Chi(a)(x, y, z) == (a(x, y, z) != (!a((x + 1) % 5, y, z) && a((x + 2) % 5, y, z)))
  {
  }

  lemma ChiAgrees(a: Fips202.Cube, s: State)
    requires Agrees(a, s)
    ensures Agrees(Fips202.Chi(a), Chi(s))
  {
    hide Chi, A, Fips202.Chi;
    forall x: nat, y: nat, z: nat | x < 5 && y < 5 && z < 64
      ensures SameBit(Fips202.Chi(a), Chi(s), x, y, z)
    {
      ChiBit(a, s, x, y, z);
      Inside(Chi(s), x, y, z);
    }
  }

  lemma IotaAgrees(a: Fips202.Cube, s: State, ir: nat)
    requires Agrees(a, s) && ir < NUM_ROUNDS
    ensures Agrees(Fips202.Iota(a, ir), Iota(s, ir))
  {
    hide Iota, A, Fips202.RoundConstantBit;
    forall x: nat, y: nat, z: nat | x < 5 && y < 5 && z < 64
      ensures SameBit(Fips202.Iota(a, ir), Iota(s, ir), x, y, z)
    {
      IotaIsFips(s, ir, x, y, z);
      Inside(Iota(s, ir), x, y, z);
      Inside(s, x, y, z);
      assert SameBit(a, s, x, y, z);
    }
  }

  // ----- the permutation -----

  lemma {:induction false} RoundsAgree(a: Fips202.Cube, s: State, n: nat)
    requires Agrees(a, s) && n <= NUM_ROUNDS
    ensures Agrees(Fips202.FirstRounds(a, n), Rounds(s, n))
    decreases n
  {
    hide Agrees, Theta, RhoPi, Chi, Iota, Fips202.Theta, Fips202.Rho, Fips202.Pi, Fips202.Chi, Fips202.Iota;
    if n > 0 {
      RoundsAgree(a, s, n - 1);
      var c, t := Fips202.FirstRounds(a, n - 1), Rounds(s, n - 1);
      ThetaAgrees(c, t);
      RhoPiAgrees(Fips202.Theta(c), Theta(t));
      ChiAgrees(Fips202.Pi(Fips202.Rho(Fips202.Theta(c))), RhoPi(Theta(t)));
      IotaAgrees(Fips202.Chi(Fips202.Pi(Fips202.Rho(Fips202.Theta(c)))), Chi(RhoPi(Theta(t))), n - 1);
    }
  }

  /** A lane of 64 bits calls for 12 + 2 * 6 rounds. */
  lemma RoundCount()
    ensures NUM_ROUNDS == 12 + 2 * Fips202.Log2(Fips202.W)
  {
    assert Fips202.Log2(8) == 3;
    assert Fips202.Log2(64) == 6;
  }

  /** The state as the string S of section 3.1.3. */
  function StringOf(s: State): Fips202.StateString {
    seq(1600, i requires 0 <= i < 1600 => StateBit(s, i))
  }

  lemma CubeAgrees(s: State)
    ensures Agrees(Fips202.ToCube(StringOf(s)), s)
  {
    forall x: nat, y: nat, z: nat | x < 5 && y < 5 && z < 64
      ensures SameBit(Fips202.ToCube(StringOf(s)), s, x, y, z)
    {
      StringIndex(s, x, y, z);
    }
  }

  lemma StringAgrees(a: Fips202.Cube, s: State)
    requires Agrees(a, s)
    ensures Fips202.ToStateString(a) == StringOf(s)
  {
    forall i | 0 <= i < 1600
      ensures Fips202.ToStateString(a)[i] == StringOf(s)[i]
    {
      assert SameBit(a, s, (i / 64) % 5, i / 320, i % 64);
    }
  }

  /** The 24 rounds are KECCAK-f[1600]. */
  lemma PermuteIsFips(s: State)
    ensures StringOf(Permute(s)) == Fips202.KeccakF(StringOf(s))
  {
    hide Agrees, StringOf, Fips202.FirstRounds, Rounds, Fips202.ToCube, Fips202.ToStateString, Fips202.Log2;
    CubeAgrees(s);
    RoundCount();
    RoundsAgree(Fips202.ToCube(StringOf(s)), s, NUM_ROUNDS);
    StringAgrees(Fips202.FirstRounds(Fips202.ToCube(StringOf(s)), NUM_ROUNDS), Permute(s));
  }

  // ----- the sponge -----

  lemma XorIsFips(s: State, p: Bits)
    ensures StringOf(XorBits(s, p)) == Fips202.XorBlock(StringOf(s), p)
  {
    hide XorBits, StateBit;
    forall i | 0 <= i < 1600
      ensures StringOf(XorBits(s, p))[i] == Fips202.XorBlock(StringOf(s), p)[i]
    {
      XorBitsBit(s, p, i);
    }
  }

  lemma EmptyIsFips()
    ensures StringOf(EmptyState()) == seq(1600, i => false)
  {
  }

  lemma {:induction false} AbsorbedIsFips(p: Bits)
    requires |p| % RATE == 0
    ensures StringOf(Absorbed(p)) == Fips202.AbsorbBlocks(1600 - 512, p)
  {
    hide StringOf, Permute, Fips202.KeccakF, XorBits, Fips202.XorBlock;
    if p == [] {
      EmptyIsFips();
    } else {
      var front, block := p[..|p| - RATE], p[|p| - RATE..];
      AbsorbedIsFips(front);
      XorIsFips(Absorbed(front), block);
      PermuteIsFips(XorBits(Absorbed(front), block));
    }
  }

  lemma OutputIsFips(s: State)
    ensures ToBits(Output(s)) == StringOf(s)[..256]
  {
    hide Output, StateBit, ByteBit;
    forall i | 0 <= i < 256
      ensures ToBits(Output(s))[i] == StringOf(s)[i]
    {
      OutputBit(s, i / 8, i % 8);
    }
  }

  /** The hash of every message is KECCAK[512](M, 256). */
  lemma Keccak256IsFips(msg: seq<byte>)
    ensures ToBits(Keccak256(msg)) == Fips202.Keccak(512, ToBits(msg), 256)
  {
    hide ToBits, Output, Absorbed, Fips202.AbsorbBlocks, StringOf;
    var m := 8 * |msg|;
    PadLength(m);
    assert Pad(m) == Fips202.Pad101(1600 - 512, m);
    AbsorbedIsFips(ToBits(msg) + Pad(m));
    OutputIsFips(Absorbed(ToBits(msg) + Pad(m)));
  }
}
