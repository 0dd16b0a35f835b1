/** `Keccak256::absorb`: the in-place permutation over `state[5][5]`, proved against `Permute`. */
module KeccakAbsorb {
  import opened Words
  import opened Bytes
  import opened KeccakF

  predicate FiveByFive(a: array2<Word>) {
    a.Length0 == 5 && a.Length1 == 5
  }

  function SnapshotSheet(a: array2<Word>, x: nat): Sheet
    requires FiveByFive(a) && x < 5
    reads a
  {
    [a[x, 0], a[x, 1], a[x, 2], a[x, 3], a[x, 4]]
  }

  /** The contents of the two-dimensional array. */
  function Snapshot(a: array2<Word>): State
    requires FiveByFive(a)
    reads a
  {
    [SnapshotSheet(a, 0), SnapshotSheet(a, 1), SnapshotSheet(a, 2), SnapshotSheet(a, 3), SnapshotSheet(a, 4)]
  }

  lemma SnapshotAt(a: array2<Word>, x: nat, y: nat)
    requires FiveByFive(a) && x < 5 && y < 5
    ensures Snapshot(a)[x][y] == a[x, y]
  {
  }

  lemma SnapshotIs(a: array2<Word>, s: State)
    requires FiveByFive(a)
    requires forall x: nat, y: nat | x < 5 && y < 5 :: a[x, y] == s[x][y]
    ensures Snapshot(a) == s
  {
    forall x: nat, y: nat | x < 5 && y < 5
      ensures Snapshot(a)[x][y] == s[x][y]
    {
      SnapshotAt(a, x, y);
    }
    StateEq(Snapshot(a), s);
  }

  lemma SnapshotElements(a: array2<Word>)
    requires FiveByFive(a)
    ensures forall x: nat, y: nat | x < 5 && y < 5 :: a[x, y] == Snapshot(a)[x][y]
  {
    forall x: nat, y: nat | x < 5 && y < 5
      ensures a[x, y] == Snapshot(a)[x][y]
    {
      SnapshotAt(a, x, y);
    }
  }

  // ----- theta -----

  function ParityUpTo(t: Sheet, n: nat): Word
    requires n <= 5
  {
    if n == 0 then Zero() else Xor(ParityUpTo(t, n - 1), t[n - 1])
  }

  lemma ParityUpToFive(t: Sheet)
    ensures ParityUpTo(t, 5) == Parity(t)
  {
    assert Xor(Zero(), t[0]) == t[0];
    assert ParityUpTo(t, 2) == Xor(ParityUpTo(t, 1), t[1]);
    assert ParityUpTo(t, 3) == Xor(ParityUpTo(t, 2), t[2]);
    assert ParityUpTo(t, 4) == Xor(ParityUpTo(t, 3), t[3]);
  }

  method ColumnParities(a: array2<Word>) returns (c: array<Word>)
    requires FiveByFive(a)
    ensures fresh(c) && c.Length == 5
    ensures c[..] == Parities(Snapshot(a))
  {
    hide Xor, Zero, Parity, Snapshot, SnapshotSheet;
    c := new Word[5](i => Zero());
    ghost var s := Snapshot(a);
    for x := 0 to 5
      invariant forall u: nat | u < x :: c[u] == Parity(s[u])
      invariant forall u: nat | x <= u < 5 :: c[u] == Zero()
    {
      for y := 0 to 5
        invariant c[x] == ParityUpTo(s[x], y)
        invariant forall u: nat | u < x :: c[u] == Parity(s[u])
        invariant forall u: nat | x < u < 5 :: c[u] == Zero()
      {
        SnapshotAt(a, x, y);
        c[x] := Xor(c[x], a[x, y]);
      }
      ParityUpToFive(s[x]);
    }
  }

  lemma ThetaAt(s: State, x: nat, y: nat)
    requires x < 5 && y < 5
    ensures Theta(s)[x][y] == Xor(s[x][y], Effect(Parities(s), x))
  {
  }

  method ThetaStep(a: array2<Word>)
    requires FiveByFive(a)
    modifies a
    ensures Snapshot(a) == Theta(old(Snapshot(a)))
  {
    hide Snapshot, SnapshotSheet, Theta, Parities, Parity, Xor, Rotl, RotBy;
    ghost var s := Snapshot(a);
    SnapshotElements(a);
    var c := ColumnParities(a);
    ghost var p := Parities(s);
    assert c[..] == p;
    for x := 0 to 5
      invariant forall u: nat | u < 5 :: c[u] == p[u]
      invariant forall u: nat, v: nat | u < 5 && v < 5 ::
        a[u, v] == if u < x then Xor(s[u][v], Effect(p, u)) else s[u][v]
    {
      var d := Xor(c[(x + 4) % 5], Rotl(c[(x + 1) % 5], 1));
      RotlIsRotBy(c[(x + 1) % 5], 1);
      assert d == Effect(p, x);
      AddToSheetInPlace(a, x, d);
    }
    forall x: nat, y: nat | x < 5 && y < 5
      ensures a[x, y] == Theta(s)[x][y]
    {
      ThetaAt(s, x, y);
    }
    SnapshotIs(a, Theta(s));
  }

  method AddToSheetInPlace(a: array2<Word>, x: nat, d: Word)
    requires FiveByFive(a) && x < 5
    modifies a
    ensures forall u: nat, v: nat | u < 5 && v < 5 ::
      a[u, v] == if u == x then Xor(old(a[u, v]), d) else old(a[u, v])
  {
    hide Xor;
    for y := 0 to 5
      invariant forall u: nat, v: nat | u < 5 && v < 5 ::
        a[u, v] == if u == x && v < y then Xor(old(a[u, v]), d) else old(a[u, v])
    {
      a[x, y] := Xor(a[x, y], d);
    }
  }

  // ----- rho and pi -----

  lemma PiRowsDiffer(u: nat, x: nat, v: nat)
    requires u < 5 && x < 5 && v < 5 && u != x
    ensures PiRow(u, v) != PiRow(x, v)
  {
    hide PiRow, PiSheet;
    PiIsPermutation(u, v);
    PiIsPermutation(x, v);
  }

  /** The inner loop: sheet `x` of `a` lands on one lane of every sheet of `b`. */
  method ScatterSheet(a: array2<Word>, x: nat, b: array2<Word>)
    requires FiveByFive(a) && FiveByFive(b) && a != b && x < 5
    modifies b
    ensures forall v: nat | v < 5 :: b[v, PiRow(x, v)] == RotBy(a[x, v], Offset(x, v))
    ensures forall v: nat, w: nat | v < 5 && w < 5 && w != PiRow(x, v) :: b[v, w] == old(b[v, w])
  {
    hide Rotl, RotBy, Offset, PiRow;
    for y := 0 to 5
      invariant forall v: nat | v < y :: b[v, PiRow(x, v)] == RotBy(a[x, v], Offset(x, v))
      invariant forall v: nat, w: nat | v < 5 && w < 5 && (w != PiRow(x, v) || v >= y) :: b[v, w] == old(b[v, w])
    {
      RotlIsRotBy(a[x, y], Offset(x, y));
      PiRowIs(x, y);
      b[y, (x * 2 + y * 3) % 5] := Rotl(a[x, y], Offset(x, y));
    }
  }

  lemma PiRowIs(x: nat, y: nat)
    requires x < 5 && y < 5
    ensures PiRow(x, y) == (x * 2 + y * 3) % 5
  {
  }

  method RhoPiStep(a: array2<Word>) returns (b: array2<Word>)
    requires FiveByFive(a)
    ensures fresh(b) && FiveByFive(b)
    ensures Snapshot(b) == RhoPi(Snapshot(a))
  {
    hide Snapshot, SnapshotSheet, RhoPi, RotBy, PiSheet, PiRow, Offset;
    ghost var s := Snapshot(a);
    SnapshotElements(a);
    b := new Word[5, 5]((i, j) => Zero());
    for x := 0 to 5
      invariant forall u: nat, v: nat | u < x && v < 5 :: b[v, PiRow(u, v)] == RotBy(s[u][v], Offset(u, v))
    {
      forall u: nat, v: nat | u < x && v < 5
        ensures PiRow(u, v) != PiRow(x, v)
      {
        PiRowsDiffer(u, x, v);
      }
      ScatterSheet(a, x, b);
    }
    forall x: nat, y: nat | x < 5 && y < 5
      ensures b[x, y] == RhoPi(s)[x][y]
    {
      PiIsPermutation(x, y);
      RhoPiAt(s, x, y);
    }
    SnapshotIs(b, RhoPi(s));
  }

  // ----- chi -----

  method ChiStep(a: array2<Word>, b: array2<Word>)
    requires FiveByFive(a) && FiveByFive(b) && a != b
    modifies a
    ensures Snapshot(a) == Chi(old(Snapshot(b)))
  {
    hide Snapshot, SnapshotSheet, Chi, Xor, And, Not;
    ghost var s := Snapshot(b);
    SnapshotElements(b);
    for x := 0 to 5
      invariant forall u: nat, v: nat | u < 5 && v < 5 :: b[u, v] == s[u][v]
      invariant forall u: nat, v: nat | u < x && v < 5 :: a[u, v] == ChiLane(s[u][v], s[Next(u)][v], s[Next(Next(u))][v])
    {
      ModFive(x);
      for y := 0 to 5
        invariant forall u: nat, v: nat | u < 5 && v < 5 :: b[u, v] == s[u][v]
        invariant forall u: nat, v: nat | u < 5 && v < 5 && (u < x || (u == x && v < y)) ::
          a[u, v] == ChiLane(s[u][v], s[Next(u)][v], s[Next(Next(u))][v])
      {
        a[x, y] := Xor(b[x, y], And(Not(b[(x + 1) % 5, y]), b[(x + 2) % 5, y]));
      }
    }
    forall x: nat, y: nat | x < 5 && y < 5
      ensures a[x, y] == Chi(s)[x][y]
    {
      ChiAt(s, x, y);
    }
    SnapshotIs(a, Chi(s));
  }

  lemma ChiAt(s: State, x: nat, y: nat)
    requires x < 5 && y < 5
    ensures Chi(s)[x][y] == ChiLane(s[x][y], s[Next(x)][y], s[Next(Next(x))][y])
  {
  }

  // ----- iota -----

  method IotaStep(a: array2<Word>, r: bv8, ghost ir: nat) returns (r': bv8)
    requires FiveByFive(a) && r == Lfsr(7 * ir)
    modifies a
    ensures Snapshot(a) == Iota(old(Snapshot(a)), ir)
    ensures r' == Lfsr(7 * (ir + 1))
  {
    hide Snapshot, SnapshotSheet, Xor, Pow2, IotaBit, LfsrStep, LowBit;
    ghost var s := Snapshot(a);
    SnapshotElements(a);
    r' := r;
    XorZero(s[0][0]);
    for j := 0 to 7
      invariant r' == Lfsr(7 * ir + j)
      invariant forall u: nat, v: nat | u < 5 && v < 5 ::
        a[u, v] == if u == 0 && v == 0 then Xor(s[0][0], RoundConstantUpTo(ir, j)) else s[u][v]
    {
      XorAssociative(s[0][0], RoundConstantUpTo(ir, j), IotaBit(LowBit(r'), j));
      a[0, 0] := Xor(a[0, 0], IotaBit(LowBit(r'), j));
      r' := LfsrStep(r');
    }
    SnapshotIs(a, Iota(s, ir));
  }

  lemma XorZero(w: Word)
    ensures Xor(w, Zero()) == w
  {
  }

  lemma XorAssociative(a: Word, b: Word, c: Word)
    ensures Xor(Xor(a, b), c) == Xor(a, Xor(b, c))
  {
  }

  // ----- absorb -----

  /** Twenty-four rounds in place, the register `r` carried from round to round. */
  method Absorb(a: array2<Word>)
    requires FiveByFive(a)
    modifies a
    ensures Snapshot(a) == Permute(old(Snapshot(a)))
  {
    hide Snapshot, SnapshotSheet, Theta, RhoPi, Chi, Iota;
    var r: bv8 := 1;
    for i := 0 to NUM_ROUNDS
      invariant Snapshot(a) == Rounds(old(Snapshot(a)), i)
      invariant r == Lfsr(7 * i)
    {
      ThetaStep(a);
      var b := RhoPiStep(a);
      ChiStep(a, b);
      r := IotaStep(a, r, i);
    }
  }
}
