/** The 64-bit lanes of the Keccak state.
    A `uint64_t` is modelled by its 64 bits, least significant first, and each
    C++ operator by its effect on every bit. */
module Words {

  type Word = w: seq<bool> | |w| == 64 witness seq(64, i => false)

  function Zero(): Word {
    seq(64, i => false)
  }

  function Xor(a: Word, b: Word): Word {
    seq(64, i requires 0 <= i < 64 => a[i] != b[i])
  }

  function And(a: Word, b: Word): Word {
    seq(64, i requires 0 <= i < 64 => a[i] && b[i])
  }

  function Or(a: Word, b: Word): Word {
    seq(64, i requires 0 <= i < 64 => a[i] || b[i])
  }

  function Not(a: Word): Word {
    seq(64, i requires 0 <= i < 64 => !a[i])
  }

  /** `a << n` for `0 <= n < 64`. */
  function Shl(a: Word, n: nat): Word {
    seq(64, i requires 0 <= i < 64 => n <= i && a[i - n])
  }

  /** `a >> n` for `0 <= n < 64`. */
  function Shr(a: Word, n: nat): Word {
    seq(64, i requires 0 <= i < 64 => i + n < 64 && a[i + n])
  }

  /** `rotl64`: two shifts and an or, the second amount masked with 63. */
  function Rotl(x: Word, i: nat): Word
    requires i < 64
  {
    Or(Shl(x, i), Shr(x, (64 - i) % 64))
  }

  // ----- lanes as 64-periodic bit functions -----

  /** Bit `z` of a lane, `z` taken modulo 64 as FIPS 202 does. */
  function At(w: Word, z: int): bool {
    w[z % 64]
  }

  /** Rotation by any integer amount. */
  function RotBy(w: Word, m: int): Word {
    seq(64, k requires 0 <= k < 64 => At(w, k - m))
  }

  lemma ModSub(z: int, m: int)
    ensures (z % 64 - m) % 64 == (z - m) % 64
  {
    var q := z / 64;
    assert z == 64 * q + z % 64;
    ModShift(z % 64 - m, q);
  }

  lemma ModShift(a: int, q: int)
    ensures (a + 64 * q) % 64 == a % 64
  {
    var r := a / 64;
    assert a + 64 * q == 64 * (r + q) + a % 64;
  }

  /** `RotBy` moves bit `z - m` to bit `z`. */
  lemma RotByAt(w: Word, m: int, z: int)
    ensures At(RotBy(w, m), z) == At(w, z - m)
  {
    ModSub(z, m);
  }

  /** The shift-and-or of `rotl64` is the cyclic rotation: bit `z` of the result is bit `z - i`. */
  lemma RotlAt(x: Word, i: nat, z: int)
    requires i < 64
    ensures At(Rotl(x, i), z) == At(x, z - i)
  {
    ModSub(z, i);
  }

  lemma RotlIsRotBy(x: Word, i: nat)
    requires i < 64
    ensures Rotl(x, i) == RotBy(x, i)
  {
    forall k | 0 <= k < 64
      ensures Rotl(x, i)[k] == RotBy(x, i)[k]
    {
      hide Rotl;
      RotlAt(x, i, k);
    }
  }

  lemma WordEq(a: Word, b: Word)
    requires forall z :: At(a, z) == At(b, z)
    ensures a == b
  {
    forall k | 0 <= k < 64
      ensures a[k] == b[k]
    {
      assert At(a, k) == At(b, k);
    }
  }

  lemma XorAt(a: Word, b: Word, z: int)
    ensures At(Xor(a, b), z) == (At(a, z) != At(b, z))
  {
  }

  lemma XorTwice(a: Word, b: Word)
    ensures Xor(Xor(a, b), b) == a
    ensures Xor(b, Xor(b, a)) == a
    ensures Xor(a, b) == Xor(b, a)
  {
  }

  lemma RotByInverse(w: Word, m: int)
    ensures RotBy(RotBy(w, m), -m) == w
  {
    forall z
      ensures At(RotBy(RotBy(w, m), -m), z) == At(w, z)
    {
      RotByAt(RotBy(w, m), -m, z);
      RotByAt(w, m, z + m);
    }
    WordEq(RotBy(RotBy(w, m), -m), w);
  }

  // ----- the polynomial 1 + R^m + R^4m in the rotation R -----

  function Poly(m: int, c: Word): Word {
    Xor(Xor(c, RotBy(c, m)), RotBy(c, 4 * m))
  }

  lemma PolyAt(m: int, c: Word, z: int)
    ensures At(Poly(m, c), z) == ((At(c, z) != At(c, z - m)) != At(c, z - 4 * m))
  {
    RotByAt(c, m, z);
    RotByAt(c, 4 * m, z);
  }

  /** Squaring over the two-element field doubles every exponent. */
  lemma PolySquare(m: int, c: Word)
    ensures Poly(m, Poly(m, c)) == Poly(2 * m, c)
  {
    var d := Poly(m, c);
    forall z
      ensures At(Poly(m, d), z) == At(Poly(2 * m, c), z)
    {
      PolyAt(m, d, z);
      PolyAt(m, c, z);
      PolyAt(m, c, z - m);
      PolyAt(m, c, z - 4 * m);
      PolyAt(2 * m, c, z);
      assert z - m - 4 * m == z - 4 * m - m == z - 5 * m;
    }
    WordEq(Poly(m, d), Poly(2 * m, c));
  }

  /** At exponent 64 the three terms coincide and one survives. */
  lemma PolyPeriod(c: Word)
    ensures Poly(64, c) == c
  {
    forall z
      ensures At(Poly(64, c), z) == At(c, z)
    {
      PolyAt(64, c, z);
      ModShift(z, -1);
      ModShift(z, -4);
    }
    WordEq(Poly(64, c), c);
  }

  lemma PolyLinear(m: int, a: Word, b: Word)
    ensures Poly(m, Xor(a, b)) == Xor(Poly(m, a), Poly(m, b))
  {
    forall z
      ensures At(Poly(m, Xor(a, b)), z) == At(Xor(Poly(m, a), Poly(m, b)), z)
    {
      PolyAt(m, Xor(a, b), z);
      PolyAt(m, a, z);
      PolyAt(m, b, z);
      XorAt(a, b, z - m);
      XorAt(a, b, z - 4 * m);
    }
    WordEq(Poly(m, Xor(a, b)), Xor(Poly(m, a), Poly(m, b)));
  }

  lemma PolyRot(m: int, k: int, c: Word)
    ensures Poly(m, RotBy(c, k)) == RotBy(Poly(m, c), k)
  {
    forall z
      ensures At(Poly(m, RotBy(c, k)), z) == At(RotBy(Poly(m, c), k), z)
    {
      PolyAt(m, RotBy(c, k), z);
      RotByAt(c, k, z);
      RotByAt(c, k, z - m);
      RotByAt(c, k, z - 4 * m);
      RotByAt(Poly(m, c), k, z);
      PolyAt(m, c, z - k);
      assert z - m - k == z - k - m && z - 4 * m - k == z - k - 4 * m;
    }
    WordEq(Poly(m, RotBy(c, k)), RotBy(Poly(m, c), k));
  }

  /** Polynomials in R commute: apply linearity and commutation with R termwise. */
  lemma PolyCommute(m: int, k: int, c: Word)
    ensures Poly(m, Poly(k, c)) == Poly(k, Poly(m, c))
  {
    PolyLinear(m, Xor(c, RotBy(c, k)), RotBy(c, 4 * k));
    PolyLinear(m, c, RotBy(c, k));
    PolyRot(m, k, c);
    PolyRot(m, 4 * k, c);
  }

  /** (1 + R + R^4)^63, by repeated squaring. */
  function PolyInverse(c: Word): Word {
    Poly(32, Poly(16, Poly(8, Poly(4, Poly(2, Poly(1, c))))))
  }

  /** (1 + R + R^4)^64 is the identity, so its 63rd power undoes it on either side. */
  lemma PolyInverseUndoes(c: Word)
    ensures PolyInverse(Poly(1, c)) == c
    ensures Poly(1, PolyInverse(c)) == c
  {
    PolySquare(1, c);
    PolySquare(2, c);
    PolySquare(4, c);
    PolySquare(8, c);
    PolySquare(16, c);
    PolySquare(32, c);
    PolyPeriod(c);
    var c1 := Poly(1, c);
    var c2 := Poly(2, c1);
    var c4 := Poly(4, c2);
    var c8 := Poly(8, c4);
    var c16 := Poly(16, c8);
    PolyCommute(1, 32, c16);
    PolyCommute(1, 16, c8);
    PolyCommute(1, 8, c4);
    PolyCommute(1, 4, c2);
    PolyCommute(1, 2, c1);
  }

  lemma PolyInverseLinear(a: Word, b: Word)
    ensures PolyInverse(Xor(a, b)) == Xor(PolyInverse(a), PolyInverse(b))
  {
    PolyLinear(1, a, b);
    var a1, b1 := Poly(1, a), Poly(1, b);
    PolyLinear(2, a1, b1);
    var a2, b2 := Poly(2, a1), Poly(2, b1);
    PolyLinear(4, a2, b2);
    var a4, b4 := Poly(4, a2), Poly(4, b2);
    PolyLinear(8, a4, b4);
    var a8, b8 := Poly(8, a4), Poly(8, b4);
    PolyLinear(16, a8, b8);
    PolyLinear(32, Poly(16, a8), Poly(16, b8));
  }

  lemma PolyInverseRot(k: int, c: Word)
    ensures PolyInverse(RotBy(c, k)) == RotBy(PolyInverse(c), k)
  {
    var c1 := Poly(1, c);
    var c2 := Poly(2, c1);
    var c4 := Poly(4, c2);
    var c8 := Poly(8, c4);
    PolyRot(1, k, c);
    PolyRot(2, k, c1);
    PolyRot(4, k, c2);
    PolyRot(8, k, c4);
    PolyRot(16, k, c8);
    PolyRot(32, k, Poly(16, c8));
  }
}
