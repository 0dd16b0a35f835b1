/** Every step of the permutation is undone, on either side, by an explicit inverse;
    so the 24-round permutation is a bijection on the 1600-bit state. */
module KeccakInverse {
  import opened Words
  import opened KeccakF

  // ----- theta on column parities -----
  // With X the shift x -> x - 1 of sheets and R the rotation of lanes, theta multiplies the parities
  // by M = 1 + X + R X^4. The cofactors Q below satisfy Q M = M Q = 1 + R + R^4.

  function MixWord(a: Word, b: Word, c: Word): Word {
    Xor(a, Xor(b, RotBy(c, 1)))
  }

  function Mix(c: Sheet): Sheet {
    seq(5, x requires 0 <= x < 5 => MixWord(c[x], c[Prev(x)], c[Next(x)]))
  }

  function Sum5(c0: Word, c1: Word, c2: Word, c3: Word, c4: Word): Word {
    Xor(Xor(Xor(Xor(c0, c1), c2), c3), c4)
  }

  /** Coefficients R^3, R^2, R^2, R, R, 1, 1, 1 of the cofactor, in this order of terms. */
  function CofactorTail(c0: Word, c1: Word, c2: Word, c3: Word, c4: Word): Word {
    Xor(Xor(Xor(Xor(Xor(Xor(Xor(RotBy(c1, 3), RotBy(c2, 2)), RotBy(c3, 2)), RotBy(c0, 1)), RotBy(c3, 1)), c2), c0), c4)
  }

  /** The cofactors 1 + R, R^3, 1 + R^2, R + R^2 and 1, each plus R^-1, applied to the parities of
      sheets x, x - 1, x - 2, x - 3 and x - 4. */
  function CofactorWord(c0: Word, c1: Word, c2: Word, c3: Word, c4: Word): Word {
    Xor(CofactorTail(c0, c1, c2, c3, c4), RotBy(Sum5(c0, c1, c2, c3, c4), -1))
  }

  /** Sheet x - i around the ring of five. */
  function Back(x: nat, i: nat): (r: nat)
    requires x < 5 && i < 5
    ensures r < 5
  {
    if i <= x then x - i else x + 5 - i
  }

  function Cofactor(c: Sheet, x: nat): Word
    requires x < 5
  {
    CofactorWord(c[x], c[Back(x, 1)], c[Back(x, 2)], c[Back(x, 3)], c[Back(x, 4)])
  }

  function Unmix(c: Sheet): Sheet {
    seq(5, x requires 0 <= x < 5 => PolyInverse(Cofactor(c, x)))
  }

  lemma MixAt(a: Word, b: Word, c: Word, z: int)
    ensures At(MixWord(a, b, c), z) == (At(a, z) != (At(b, z) != At(c, z - 1)))
  {
    RotByAt(c, 1, z);
  }

  predicate Sum5Bit(a: bool, b: bool, c: bool, d: bool, e: bool) {
    (((a != b) != c) != d) != e
  }

  predicate Sum8Bit(a: bool, b: bool, c: bool, d: bool, e: bool, f: bool, g: bool, h: bool) {
    ((((((a != b) != c) != d) != e) != f) != g) != h
  }

  lemma Sum5At(c0: Word, c1: Word, c2: Word, c3: Word, c4: Word, z: int)
    ensures At(Sum5(c0, c1, c2, c3, c4), z) == Sum5Bit(At(c0, z), At(c1, z), At(c2, z), At(c3, z), At(c4, z))
  {
  }

  lemma CofactorTailAt(c0: Word, c1: Word, c2: Word, c3: Word, c4: Word, z: int)
    ensures At(CofactorTail(c0, c1, c2, c3, c4), z)
         == Sum8Bit(At(c1, z - 3), At(c2, z - 2), At(c3, z - 2), At(c0, z - 1), At(c3, z - 1), At(c2, z), At(c0, z), At(c4, z))
  {
    hide RotBy;
    var w1, w2, w3, w4, w5 := RotBy(c1, 3), RotBy(c2, 2), RotBy(c3, 2), RotBy(c0, 1), RotBy(c3, 1);
    RotByAt(c1, 3, z);
    RotByAt(c2, 2, z);
    RotByAt(c3, 2, z);
    RotByAt(c0, 1, z);
    RotByAt(c3, 1, z);
    Sum8At(w1, w2, w3, w4, w5, c2, c0, c4, z);
  }

  lemma Sum8At(a: Word, b: Word, c: Word, d: Word, e: Word, f: Word, g: Word, h: Word, z: int)
    ensures At(Xor(Xor(Xor(Xor(Xor(Xor(Xor(a, b), c), d), e), f), g), h), z)
         == Sum8Bit(At(a, z), At(b, z), At(c, z), At(d, z), At(e, z), At(f, z), At(g, z), At(h, z))
  {
  }

  lemma CofactorAt(c0: Word, c1: Word, c2: Word, c3: Word, c4: Word, z: int)
    ensures At(CofactorWord(c0, c1, c2, c3, c4), z)
         == (At(CofactorTail(c0, c1, c2, c3, c4), z)
             != Sum5Bit(At(c0, z + 1), At(c1, z + 1), At(c2, z + 1), At(c3, z + 1), At(c4, z + 1)))
  {
    var s := Sum5(c0, c1, c2, c3, c4);
    XorAt(CofactorTail(c0, c1, c2, c3, c4), RotBy(s, -1), z);
    RotByAt(s, -1, z);
    Sum5At(c0, c1, c2, c3, c4, z + 1);
  }

  /** M sums the five parities to R times their sum. */
  lemma SumOfMix(c0: Word, c1: Word, c2: Word, c3: Word, c4: Word, z: int)
    ensures Sum5Bit(At(MixWord(c0, c1, c4), z), At(MixWord(c1, c2, c0), z), At(MixWord(c2, c3, c1), z),
                    At(MixWord(c3, c4, c2), z), At(MixWord(c4, c0, c3), z))
         == Sum5Bit(At(c0, z - 1), At(c1, z - 1), At(c2, z - 1), At(c3, z - 1), At(c4, z - 1))
  {
    hide MixWord, CofactorTail, CofactorWord, RotBy, Xor, Poly;
    MixAt(c0, c1, c4, z);
    MixAt(c1, c2, c0, z);
    MixAt(c2, c3, c1, z);
    MixAt(c3, c4, c2, z);
    MixAt(c4, c0, c3, z);
  }

  /** The bits that meet in one bit of the tail of Q M c cancel; `bij` is bit z - i of parity j,
      the `n`s are the bits of M c and `p` is the bit of (1 + R + R^4) c. */
  lemma CofactorCancels(n1: bool, n2: bool, n3: bool, n4: bool, n5: bool, n6: bool, n7: bool, n8: bool, p: bool,
                        b00: bool, b01: bool, b02: bool, b03: bool, b04: bool,
                        b10: bool, b11: bool, b13: bool, b14: bool,
                        b22: bool, b23: bool, b24: bool, b31: bool, b32: bool, b40: bool)
    requires n1 == (b31 != (b32 != b40)) && n2 == (b22 != (b23 != b31)) && n3 == (b23 != (b24 != b32))
    requires n4 == (b10 != (b11 != b24)) && n5 == (b13 != (b14 != b22)) && n6 == (b02 != (b03 != b11))
    requires n7 == (b00 != (b01 != b14)) && n8 == (b04 != (b00 != b13))
    requires p == ((b00 != b10) != b40)
    ensures Sum8Bit(n1, n2, n3, n4, n5, n6, n7, n8) == (p != Sum5Bit(b00, b01, b02, b03, b04))
  {
  }

  lemma CofactorTailOfMix(c0: Word, c1: Word, c2: Word, c3: Word, c4: Word,
                          m0: Word, m1: Word, m2: Word, m3: Word, m4: Word, z: int)
    requires m0 == MixWord(c0, c1, c4) && m1 == MixWord(c1, c2, c0) && m2 == MixWord(c2, c3, c1)
    requires m3 == MixWord(c3, c4, c2) && m4 == MixWord(c4, c0, c3)
    ensures At(CofactorTail(m0, m1, m2, m3, m4), z)
         == (At(Poly(1, c0), z) != Sum5Bit(At(c0, z), At(c1, z), At(c2, z), At(c3, z), At(c4, z)))
  {
    hide MixWord, CofactorTail, CofactorWord, RotBy, Xor, Poly;
    CofactorTailAt(m0, m1, m2, m3, m4, z);
    MixAt(c1, c2, c0, z - 3);
    MixAt(c2, c3, c1, z - 2);
    MixAt(c3, c4, c2, z - 2);
    MixAt(c0, c1, c4, z - 1);
    MixAt(c3, c4, c2, z - 1);
    MixAt(c2, c3, c1, z);
    MixAt(c0, c1, c4, z);
    MixAt(c4, c0, c3, z);
    PolyAt(1, c0, z);
    CofactorCancels(At(m1, z - 3), At(m2, z - 2), At(m3, z - 2), At(m0, z - 1), At(m3, z - 1), At(m2, z),
                    At(m0, z), At(m4, z), At(Poly(1, c0), z),
                    At(c0, z), At(c1, z), At(c2, z), At(c3, z), At(c4, z),
                    At(c0, z - 1), At(c1, z - 1), At(c3, z - 1), At(c4, z - 1),
                    At(c2, z - 2), At(c3, z - 2), At(c4, z - 2), At(c1, z - 3), At(c2, z - 3), At(c0, z - 4));
  }

  lemma CofactorOfMixAt(c0: Word, c1: Word, c2: Word, c3: Word, c4: Word,
                        m0: Word, m1: Word, m2: Word, m3: Word, m4: Word, z: int)
    requires m0 == MixWord(c0, c1, c4) && m1 == MixWord(c1, c2, c0) && m2 == MixWord(c2, c3, c1)
    requires m3 == MixWord(c3, c4, c2) && m4 == MixWord(c4, c0, c3)
    ensures At(CofactorWord(m0, m1, m2, m3, m4), z) == At(Poly(1, c0), z)
  {
    hide MixWord, CofactorTail, CofactorWord, RotBy, Xor, Poly;
    CofactorTailOfMix(c0, c1, c2, c3, c4, m0, m1, m2, m3, m4, z);
    CofactorAt(m0, m1, m2, m3, m4, z);
    SumOfMix(c0, c1, c2, c3, c4, z + 1);
  }

  /** Q M = 1 + R + R^4. */
  lemma CofactorOfMix(c0: Word, c1: Word, c2: Word, c3: Word, c4: Word)
    ensures CofactorWord(MixWord(c0, c1, c4), MixWord(c1, c2, c0), MixWord(c2, c3, c1),
                         MixWord(c3, c4, c2), MixWord(c4, c0, c3))
         == Poly(1, c0)
  {
    var m0, m1, m2, m3, m4 := MixWord(c0, c1, c4), MixWord(c1, c2, c0), MixWord(c2, c3, c1),
                              MixWord(c3, c4, c2), MixWord(c4, c0, c3);
    forall z
      ensures At(CofactorWord(m0, m1, m2, m3, m4), z) == At(Poly(1, c0), z)
    {
      CofactorOfMixAt(c0, c1, c2, c3, c4, m0, m1, m2, m3, m4, z);
    }
    WordEq(CofactorWord(m0, m1, m2, m3, m4), Poly(1, c0));
  }

  /** The same cancellation for one bit of the tails of M Q c. */
  lemma MixCancels(t0: bool, t1: bool, t4: bool, p: bool,
                   b00: bool, b01: bool, b02: bool, b03: bool, b04: bool,
                   b10: bool, b11: bool, b13: bool, b14: bool,
                   b22: bool, b23: bool, b24: bool, b31: bool, b32: bool, b40: bool)
    requires t0 == Sum8Bit(b31, b22, b23, b10, b13, b02, b00, b04)
    requires t1 == Sum8Bit(b32, b23, b24, b11, b14, b03, b01, b00)
    requires t4 == Sum8Bit(b40, b31, b32, b24, b22, b11, b14, b13)
    requires p == ((b00 != b10) != b40)
    ensures (t0 != (t1 != t4)) == (p != Sum5Bit(b00, b01, b02, b03, b04))
  {
  }

  lemma TailsOfMix(c0: Word, c1: Word, c2: Word, c3: Word, c4: Word, z: int)
    ensures (At(CofactorTail(c0, c1, c2, c3, c4), z)
             != (At(CofactorTail(c1, c2, c3, c4, c0), z) != At(CofactorTail(c4, c0, c1, c2, c3), z - 1)))
         == (At(Poly(1, c0), z) != Sum5Bit(At(c0, z), At(c1, z), At(c2, z), At(c3, z), At(c4, z)))
  {
    hide MixWord, CofactorTail, CofactorWord, RotBy, Xor, Poly;
    CofactorTailAt(c0, c1, c2, c3, c4, z);
    CofactorTailAt(c1, c2, c3, c4, c0, z);
    CofactorTailAt(c4, c0, c1, c2, c3, z - 1);
    PolyAt(1, c0, z);
    MixCancels(At(CofactorTail(c0, c1, c2, c3, c4), z), At(CofactorTail(c1, c2, c3, c4, c0), z),
               At(CofactorTail(c4, c0, c1, c2, c3), z - 1), At(Poly(1, c0), z),
               At(c0, z), At(c1, z), At(c2, z), At(c3, z), At(c4, z),
               At(c0, z - 1), At(c1, z - 1), At(c3, z - 1), At(c4, z - 1),
               At(c2, z - 2), At(c3, z - 2), At(c4, z - 2), At(c1, z - 3), At(c2, z - 3), At(c0, z - 4));
  }

  lemma Sum5BitRotates(a: bool, b: bool, c: bool, d: bool, e: bool)
    ensures Sum5Bit(a, b, c, d, e) == Sum5Bit(b, c, d, e, a) == Sum5Bit(e, a, b, c, d)
  {
  }

  lemma MixOfCofactorAt(c0: Word, c1: Word, c2: Word, c3: Word, c4: Word, q0: Word, q1: Word, q4: Word, z: int)
    requires q0 == CofactorWord(c0, c1, c2, c3, c4) && q1 == CofactorWord(c1, c2, c3, c4, c0)
    requires q4 == CofactorWord(c4, c0, c1, c2, c3)
    ensures At(MixWord(q0, q1, q4), z) == At(Poly(1, c0), z)
  {
    hide MixWord, CofactorTail, CofactorWord, RotBy, Xor, Poly;
    MixAt(q0, q1, q4, z);
    CofactorAt(c0, c1, c2, c3, c4, z);
    CofactorAt(c1, c2, c3, c4, c0, z);
    CofactorAt(c4, c0, c1, c2, c3, z - 1);
    Sum5BitRotates(At(c0, z + 1), At(c1, z + 1), At(c2, z + 1), At(c3, z + 1), At(c4, z + 1));
    Sum5BitRotates(At(c0, z), At(c1, z), At(c2, z), At(c3, z), At(c4, z));
    TailsOfMix(c0, c1, c2, c3, c4, z);
  }

  /** M Q = 1 + R + R^4. */
  lemma MixOfCofactor(c0: Word, c1: Word, c2: Word, c3: Word, c4: Word)
    ensures MixWord(CofactorWord(c0, c1, c2, c3, c4), CofactorWord(c1, c2, c3, c4, c0),
                    CofactorWord(c4, c0, c1, c2, c3))
         == Poly(1, c0)
  {
    var q0, q1, q4 := CofactorWord(c0, c1, c2, c3, c4), CofactorWord(c1, c2, c3, c4, c0),
                      CofactorWord(c4, c0, c1, c2, c3);
    forall z
      ensures At(MixWord(q0, q1, q4), z) == At(Poly(1, c0), z)
    {
      MixOfCofactorAt(c0, c1, c2, c3, c4, q0, q1, q4, z);
    }
    WordEq(MixWord(q0, q1, q4), Poly(1, c0));
  }

  lemma SheetEq(a: Sheet, b: Sheet)
    requires forall x: nat | x < 5 :: a[x] == b[x]
    ensures a == b
  {
  }

  lemma Neighbours(x: nat)
    requires x < 5
    ensures Prev(x) == Back(x, 1) && Next(x) == Back(x, 4)
  {
  }

  lemma BackChain(x: nat)
    requires x < 5
    ensures Prev(x) == Back(x, 1) && Next(x) == Back(x, 4)
    ensures Prev(Back(x, 1)) == Back(x, 2) && Next(Back(x, 1)) == x
    ensures Prev(Back(x, 2)) == Back(x, 3) && Next(Back(x, 2)) == Back(x, 1)
    ensures Prev(Back(x, 3)) == Back(x, 4) && Next(Back(x, 3)) == Back(x, 2)
    ensures Prev(Back(x, 4)) == x && Next(Back(x, 4)) == Back(x, 3)
  {
    Neighbours(x);
    Neighbours(Back(x, 1));
    Neighbours(Back(x, 2));
    Neighbours(Back(x, 3));
    Neighbours(Back(x, 4));
  }

  lemma BackTwice(x: nat)
    requires x < 5
    ensures var u := Back(x, 1);
            Back(u, 1) == Back(x, 2) && Back(u, 2) == Back(x, 3) && Back(u, 3) == Back(x, 4) && Back(u, 4) == x
    ensures var v := Back(x, 4);
            Back(v, 1) == x && Back(v, 2) == Back(x, 1) && Back(v, 3) == Back(x, 2) && Back(v, 4) == Back(x, 3)
  {
  }

  lemma CofactorOfMixSheet(c: Sheet, x: nat)
    requires x < 5
    ensures Cofactor(Mix(c), x) == Poly(1, c[x])
  {
    BackChain(x);
    var c0, c1, c2, c3, c4 := c[x], c[Back(x, 1)], c[Back(x, 2)], c[Back(x, 3)], c[Back(x, 4)];
    var m := Mix(c);
    assert m[x] == MixWord(c0, c1, c4);
    assert m[Back(x, 1)] == MixWord(c1, c2, c0);
    assert m[Back(x, 2)] == MixWord(c2, c3, c1);
    assert m[Back(x, 3)] == MixWord(c3, c4, c2);
    assert m[Back(x, 4)] == MixWord(c4, c0, c3);
    CofactorOfMix(c0, c1, c2, c3, c4);
  }

  lemma UnmixOfMix(c: Sheet)
    ensures Unmix(Mix(c)) == c
  {
    forall x: nat | x < 5
      ensures Unmix(Mix(c))[x] == c[x]
    {
      CofactorOfMixSheet(c, x);
      PolyInverseUndoes(c[x]);
    }
    SheetEq(Unmix(Mix(c)), c);
  }

  lemma PolyInverseOfMix(a: Word, b: Word, c: Word)
    ensures MixWord(PolyInverse(a), PolyInverse(b), PolyInverse(c)) == PolyInverse(MixWord(a, b, c))
  {
    PolyInverseLinear(a, Xor(b, RotBy(c, 1)));
    PolyInverseLinear(b, RotBy(c, 1));
    PolyInverseRot(1, c);
  }

  lemma CofactorRow(c: Sheet, x: nat)
    requires x < 5
    ensures Cofactor(c, Back(x, 1)) == CofactorWord(c[Back(x, 1)], c[Back(x, 2)], c[Back(x, 3)], c[Back(x, 4)], c[x])
    ensures Cofactor(c, Back(x, 4)) == CofactorWord(c[Back(x, 4)], c[x], c[Back(x, 1)], c[Back(x, 2)], c[Back(x, 3)])
  {
    BackTwice(x);
  }

  lemma MixOfUnmixAt(c: Sheet, x: nat)
    requires x < 5
    ensures Mix(Unmix(c))[x] == c[x]
  {
    BackChain(x);
    CofactorRow(c, x);
    var q0, q1, q4 := Cofactor(c, x), Cofactor(c, Back(x, 1)), Cofactor(c, Back(x, 4));
    assert Mix(Unmix(c))[x] == MixWord(PolyInverse(q0), PolyInverse(q1), PolyInverse(q4));
    PolyInverseOfMix(q0, q1, q4);
    MixOfCofactor(c[x], c[Back(x, 1)], c[Back(x, 2)], c[Back(x, 3)], c[Back(x, 4)]);
    PolyInverseUndoes(c[x]);
  }

  lemma MixOfUnmix(c: Sheet)
    ensures Mix(Unmix(c)) == c
  {
    forall x: nat | x < 5
      ensures Mix(Unmix(c))[x] == c[x]
    {
      MixOfUnmixAt(c, x);
    }
    SheetEq(Mix(Unmix(c)), c);
  }

  // ----- theta on the state -----

  function AddSheets(s: State, d: Sheet): State {
    seq(5, x requires 0 <= x < 5 => AddToSheet(s[x], d[x]))
  }

  function XorSheets(a: Sheet, b: Sheet): Sheet {
    seq(5, x requires 0 <= x < 5 => Xor(a[x], b[x]))
  }

  /** Recover the parities before theta, hence the words theta added, and add them again. */
  function ThetaInverse(s: State): State {
    AddSheets(s, XorSheets(Parities(s), Unmix(Parities(s))))
  }

  lemma ThetaAddsSheets(s: State)
    ensures Theta(s) == AddSheets(s, XorSheets(Parities(s), Mix(Parities(s))))
  {
    var c := Parities(s);
    forall x: nat, y: nat | x < 5 && y < 5
      ensures Theta(s)[x][y] == AddSheets(s, XorSheets(c, Mix(c)))[x][y]
    {
      XorTwice(Effect(c, x), c[x]);
    }
    StateEq(Theta(s), AddSheets(s, XorSheets(c, Mix(c))));
  }

  lemma FiveEqualWords(t: Sheet, d: Word)
    ensures Parity(AddToSheet(t, d)) == Xor(Parity(t), d)
  {
    forall z
      ensures At(Parity(AddToSheet(t, d)), z) == At(Xor(Parity(t), d), z)
    {
      ParityAt(t, z);
      ParityAt(AddToSheet(t, d), z);
    }
    WordEq(Parity(AddToSheet(t, d)), Xor(Parity(t), d));
  }

  lemma ParitiesOfAddSheets(s: State, d: Sheet)
    ensures Parities(AddSheets(s, d)) == XorSheets(Parities(s), d)
  {
    forall x: nat | x < 5
      ensures Parities(AddSheets(s, d))[x] == XorSheets(Parities(s), d)[x]
    {
      FiveEqualWords(s[x], d[x]);
    }
    SheetEq(Parities(AddSheets(s, d)), XorSheets(Parities(s), d));
  }

  lemma XorSheetsTwice(a: Sheet, b: Sheet)
    ensures XorSheets(a, XorSheets(a, b)) == b
    ensures XorSheets(a, b) == XorSheets(b, a)
  {
    forall x: nat | x < 5
      ensures XorSheets(a, XorSheets(a, b))[x] == b[x]
      ensures XorSheets(a, b)[x] == XorSheets(b, a)[x]
    {
      XorTwice(b[x], a[x]);
    }
    SheetEq(XorSheets(a, XorSheets(a, b)), b);
    SheetEq(XorSheets(a, b), XorSheets(b, a));
  }

  lemma AddSheetsTwice(s: State, d: Sheet)
    ensures AddSheets(AddSheets(s, d), d) == s
  {
    forall x: nat, y: nat | x < 5 && y < 5
      ensures AddSheets(AddSheets(s, d), d)[x][y] == s[x][y]
    {
      XorTwice(s[x][y], d[x]);
    }
    StateEq(AddSheets(AddSheets(s, d), d), s);
  }

  /** Theta is a bijection. */
  lemma ThetaBijective(s: State)
    ensures ThetaInverse(Theta(s)) == s
    ensures Theta(ThetaInverse(s)) == s
  {
    var c := Parities(s);
    ThetaAddsSheets(s);
    var d := XorSheets(c, Mix(c));
    ParitiesOfAddSheets(s, d);
    XorSheetsTwice(c, Mix(c));
    UnmixOfMix(c);
    XorSheetsTwice(Mix(c), c);
    AddSheetsTwice(s, d);

    var e := XorSheets(c, Unmix(c));
    ParitiesOfAddSheets(s, e);
    XorSheetsTwice(c, Unmix(c));
    ThetaAddsSheets(ThetaInverse(s));
    MixOfUnmix(c);
    XorSheetsTwice(Unmix(c), c);
    AddSheetsTwice(s, e);
  }

  // ----- rho and pi -----

  function RhoPiInverseLane(s: State, x: nat, y: nat): Word
    requires x < 5 && y < 5
  {
    RotBy(s[y][PiRow(x, y)], 0 - Offset(x, y))
  }

  function RhoPiInverseSheet(s: State, x: nat): Sheet
    requires x < 5
  {
    seq(5, y requires 0 <= y < 5 => RhoPiInverseLane(s, x, y))
  }

  function RhoPiInverse(s: State): State {
    seq(5, x requires 0 <= x < 5 => RhoPiInverseSheet(s, x))
  }

  lemma RhoPiBijective(s: State)
    ensures RhoPiInverse(RhoPi(s)) == s
    ensures RhoPi(RhoPiInverse(s)) == s
  {
    forall x: nat, y: nat | x < 5 && y < 5
      ensures RhoPiInverse(RhoPi(s))[x][y] == s[x][y]
      ensures RhoPi(RhoPiInverse(s))[x][y] == s[x][y]
    {
      RhoPiInverseAt(s, x, y);
    }
    StateEq(RhoPiInverse(RhoPi(s)), s);
    StateEq(RhoPi(RhoPiInverse(s)), s);
  }

  lemma RhoPiInverseAt(s: State, x: nat, y: nat)
    requires x < 5 && y < 5
    ensures RhoPiInverse(RhoPi(s))[x][y] == s[x][y]
    ensures RhoPi(RhoPiInverse(s))[x][y] == s[x][y]
  {
    hide Offset, PiRow, PiSheet;
    PiIsPermutation(x, y);
    var n := Offset(x, y);
    assert RhoPi(s)[y][PiRow(x, y)] == RotBy(s[x][y], n);
    RotByInverse(s[x][y], n);
    var u := PiSheet(x, y);
    var m: int := Offset(u, x);
    assert RhoPiInverse(s)[u][x] == RotBy(s[x][y], 0 - m);
    RotByInverse(s[x][y], 0 - m);
  }

  // ----- chi, row by row -----

  function ChiInverseLane(a: Word, b: Word, c: Word, d: Word, e: Word): Word {
    ChiLane(a, b, ChiLane(c, d, ChiLane(e, a, b)))
  }

  function ChiInverseSheet(a: Sheet, b: Sheet, c: Sheet, d: Sheet, e: Sheet): Sheet {
    seq(5, y requires 0 <= y < 5 => ChiInverseLane(a[y], b[y], c[y], d[y], e[y]))
  }

  function ChiInverse(s: State): State {
    seq(5, x requires 0 <= x < 5 =>
      ChiInverseSheet(s[x], s[Back(x, 4)], s[Back(x, 3)], s[Back(x, 2)], s[Back(x, 1)]))
  }

  /** Five bits of a row pass through chi and back, in either order. */
  lemma ChiRow(a: Word, b: Word, c: Word, d: Word, e: Word)
    ensures ChiInverseLane(ChiLane(a, b, c), ChiLane(b, c, d), ChiLane(c, d, e), ChiLane(d, e, a), ChiLane(e, a, b)) == a
    ensures ChiLane(ChiInverseLane(a, b, c, d, e), ChiInverseLane(b, c, d, e, a), ChiInverseLane(c, d, e, a, b)) == a
  {
  }

  lemma ChiInverseAt(s: State, x: nat, y: nat)
    requires x < 5 && y < 5
    ensures ChiInverse(Chi(s))[x][y] == s[x][y]
    ensures Chi(ChiInverse(s))[x][y] == s[x][y]
  {
    var b, c, d, e := Back(x, 4), Back(x, 3), Back(x, 2), Back(x, 1);
    BackChain(x);
    var t := Chi(s);
    assert t[x][y] == ChiLane(s[x][y], s[b][y], s[c][y]);
    assert t[b][y] == ChiLane(s[b][y], s[c][y], s[d][y]);
    assert t[c][y] == ChiLane(s[c][y], s[d][y], s[e][y]);
    assert t[d][y] == ChiLane(s[d][y], s[e][y], s[x][y]);
    assert t[e][y] == ChiLane(s[e][y], s[x][y], s[b][y]);
    BackTwice(x);
    var u := ChiInverse(s);
    assert u[x][y] == ChiInverseLane(s[x][y], s[b][y], s[c][y], s[d][y], s[e][y]);
    assert u[b][y] == ChiInverseLane(s[b][y], s[c][y], s[d][y], s[e][y], s[x][y]);
    assert u[c][y] == ChiInverseLane(s[c][y], s[d][y], s[e][y], s[x][y], s[b][y]);
    ChiRow(s[x][y], s[b][y], s[c][y], s[d][y], s[e][y]);
  }

  lemma ChiBijective(s: State)
    ensures ChiInverse(Chi(s)) == s
    ensures Chi(ChiInverse(s)) == s
  {
    forall x: nat, y: nat | x < 5 && y < 5
      ensures ChiInverse(Chi(s))[x][y] == s[x][y]
      ensures Chi(ChiInverse(s))[x][y] == s[x][y]
    {
      ChiInverseAt(s, x, y);
    }
    StateEq(ChiInverse(Chi(s)), s);
    StateEq(Chi(ChiInverse(s)), s);
  }

  // ----- the permutation -----

  function RoundInverse(s: State, ir: nat): State {
    ThetaInverse(RhoPiInverse(ChiInverse(Iota(s, ir))))
  }

  function RoundsInverse(s: State, n: nat): State
    decreases n
  {
    if n == 0 then s else RoundsInverse(RoundInverse(s, n - 1), n - 1)
  }

  function PermuteInverse(s: State): State {
    RoundsInverse(s, NUM_ROUNDS)
  }

  lemma IotaTwice(s: State, ir: nat)
    ensures Iota(Iota(s, ir), ir) == s
  {
    XorTwice(s[0][0], RoundConstant(ir));
    assert Iota(Iota(s, ir), ir)[0] == s[0];
  }

  /** Every round is a bijection on the state. */
  lemma RoundBijective(s: State, ir: nat)
    ensures RoundInverse(Round(s, ir), ir) == s
    ensures Round(RoundInverse(s, ir), ir) == s
  {
    hide Theta, ThetaInverse, RhoPi, RhoPiInverse, Chi, ChiInverse, Iota;
    ThetaBijective(s);
    RhoPiBijective(Theta(s));
    ChiBijective(RhoPi(Theta(s)));
    IotaTwice(Chi(RhoPi(Theta(s))), ir);
    IotaTwice(s, ir);
    ChiBijective(Iota(s, ir));
    RhoPiBijective(ChiInverse(Iota(s, ir)));
    ThetaBijective(RhoPiInverse(ChiInverse(Iota(s, ir))));
  }

  lemma {:induction false} RoundsThenInverse(s: State, n: nat)
    ensures RoundsInverse(Rounds(s, n), n) == s
  {
    hide Round, RoundInverse;
    if n > 0 {
      var p := Rounds(s, n - 1);
      assert RoundsInverse(Rounds(s, n), n) == RoundsInverse(p, n - 1) by {
        RoundBijective(p, n - 1);
      }
      RoundsThenInverse(s, n - 1);
    }
  }

  lemma {:induction false} InverseThenRounds(s: State, n: nat)
    ensures Rounds(RoundsInverse(s, n), n) == s
    decreases n
  {
    hide Round, RoundInverse;
    if n > 0 {
      var p := RoundInverse(s, n - 1);
      InverseThenRounds(p, n - 1);
      RoundBijective(s, n - 1);
    }
  }

  /** The 24-round permutation is a bijection: `PermuteInverse` undoes it from both sides. */
  lemma PermuteBijective(s: State)
    ensures PermuteInverse(Permute(s)) == s
    ensures Permute(PermuteInverse(s)) == s
  {
    hide Rounds, RoundsInverse;
    RoundsThenInverse(s, NUM_ROUNDS);
    InverseThenRounds(s, NUM_ROUNDS);
  }
}
