/** Low-s normalization and the recovery-id search over an abstract group of order n.
    The curve operations OpenSSL provides are the fields of `Curve`; `IsCurve` states what is
    assumed of them. */
module Ecdsa {
  import opened Bytes
  import opened Numbers
  import opened Results
  import Hex

  datatype Curve<!Point> = Curve(
    n: nat,                              // order of the group
    p: nat,                              // size of the field the coordinates come from
    zero: Point,
    g: Point,
    add: (Point, Point) -> Point,
    neg: Point -> Point,
    x: Point -> nat,                     // affine x-coordinate
    odd: Point -> bool,                  // parity of the affine y-coordinate
    decompress: (nat, bool) -> Option<Point>,   // EC_POINT_set_compressed_coordinates
    inv: nat -> nat)                     // BN_mod_inverse(_, n)

  /** EC_POINT_mul: repeated addition. */
  function Mul<Point>(c: Curve<Point>, k: nat, q: Point): Point {
    if k == 0 then c.zero else c.add(q, Mul(c, k - 1, q))
  }

  ghost predicate Commutative<Point>(c: Curve<Point>, a: Point, b: Point) {
    c.add(a, b) == c.add(b, a)
  }

  ghost predicate Associative<Point>(c: Curve<Point>, a: Point, b: Point, d: Point) {
    c.add(c.add(a, b), d) == c.add(a, c.add(b, d))
  }

  /** The neutral element, the opposite, and the order of the group. */
  ghost predicate ElementLaws<Point>(c: Curve<Point>, a: Point) {
    c.add(a, c.zero) == a && c.add(a, c.neg(a)) == c.zero && Mul(c, c.n, a) == c.zero
  }

  ghost predicate IsGroup<Point(!new)>(c: Curve<Point>) {
    && (forall a, b :: Commutative(c, a, b))
    && (forall a, b, d :: Associative(c, a, b, d))
    && (forall a :: ElementLaws(c, a))
  }

  /** Affine points come in pairs P, -P that share x and differ in the parity of y. */
  ghost predicate Paired<Point>(c: Curve<Point>, a: Point) {
    a != c.zero ==> c.x(a) < c.p && c.x(c.neg(a)) == c.x(a) && c.odd(c.neg(a)) != c.odd(a)
  }

  /** Decompression reduces its x argument modulo p, and returns the point with that x and parity if there
      is one. */
  ghost predicate Decompresses<Point>(c: Curve<Point>, v: nat, o: bool, a: Point)
    requires c.p > 0
  {
    c.decompress(v, o) == Some(a) <==> a != c.zero && c.x(a) == v % c.p && c.odd(a) == o
  }

  ghost predicate HasCoordinates<Point(!new)>(c: Curve<Point>)
    requires c.p > 0
  {
    && (forall a :: Paired(c, a))
    && (forall v: nat, o, a :: Decompresses(c, v, o, a))
  }

  ghost predicate Invertible<Point>(c: Curve<Point>, a: nat)
    requires c.n > 0
  {
    0 < a < c.n ==> 0 < c.inv(a) < c.n && (a * c.inv(a)) % c.n == 1
  }

  /** No more than `size` big-endian bytes are needed. */
  ghost predicate FitsBytes(n: nat, size: nat) {
    exists k: nat :: k <= size && ShiftBytes(n, k) == 0
  }

  /** secp256k1 in the respects that matter here: n < p < 2n, n fits 32 bytes, n is prime. */
  ghost predicate IsCurve<Point(!new)>(c: Curve<Point>) {
    && 2 < c.n < c.p < 2 * c.n
    && c.n % 2 == 1
    && FitsBytes(c.n, 32)
    && (forall a: nat :: Invertible(c, a))
    && IsGroup(c)
    && HasCoordinates(c)
  }

  // ----- the laws, one instance at a time -----

  lemma Commutes<Point(!new)>(c: Curve<Point>, a: Point, b: Point)
    requires IsGroup(c)
    ensures c.add(a, b) == c.add(b, a)
  {
    assert Commutative(c, a, b);
  }

  lemma Associates<Point(!new)>(c: Curve<Point>, a: Point, b: Point, d: Point)
    requires IsGroup(c)
    ensures c.add(c.add(a, b), d) == c.add(a, c.add(b, d))
  {
    assert Associative(c, a, b, d);
  }

  lemma ZeroLaw<Point(!new)>(c: Curve<Point>, a: Point)
    requires IsGroup(c)
    ensures c.add(a, c.zero) == a && c.add(c.zero, a) == a
  {
    assert ElementLaws(c, a);
    Commutes(c, a, c.zero);
  }

  lemma NegLaw<Point(!new)>(c: Curve<Point>, a: Point)
    requires IsGroup(c)
    ensures c.add(a, c.neg(a)) == c.zero && c.add(c.neg(a), a) == c.zero
  {
    assert ElementLaws(c, a);
    Commutes(c, a, c.neg(a));
  }

  lemma OrderLaw<Point(!new)>(c: Curve<Point>, a: Point)
    requires IsGroup(c)
    ensures Mul(c, c.n, a) == c.zero
  {
    assert ElementLaws(c, a);
  }

  lemma CurveFacts<Point(!new)>(c: Curve<Point>)
    requires IsCurve(c)
    ensures IsGroup(c) && 2 < c.n < c.p < 2 * c.n && c.n % 2 == 1 && FitsBytes(c.n, 32)
  {
  }

  lemma InverseLaw<Point(!new)>(c: Curve<Point>, a: nat)
    requires IsCurve(c) && 0 < a < c.n
    ensures 0 < c.inv(a) < c.n && (a * c.inv(a)) % c.n == 1
  {
    assert Invertible(c, a);
  }

  // ----- group algebra -----

  lemma {:induction false} MulSum<Point(!new)>(c: Curve<Point>, a: nat, b: nat, q: Point)
    requires IsGroup(c)
    ensures Mul(c, a + b, q) == c.add(Mul(c, a, q), Mul(c, b, q))
  {
    hide IsGroup;
    if a == 0 {
      ZeroLaw(c, Mul(c, b, q));
    } else {
      MulSum(c, a - 1, b, q);
      Associates(c, q, Mul(c, a - 1, q), Mul(c, b, q));
    }
  }

  lemma {:induction false} MulOfZero<Point(!new)>(c: Curve<Point>, k: nat)
    requires IsGroup(c)
    ensures Mul(c, k, c.zero) == c.zero
  {
    hide IsGroup;
    if k > 0 {
      MulOfZero(c, k - 1);
      ZeroLaw(c, c.zero);
    }
  }

  lemma {:induction false} MulOfSum<Point(!new)>(c: Curve<Point>, k: nat, q: Point, r: Point)
    requires IsGroup(c)
    ensures Mul(c, k, c.add(q, r)) == c.add(Mul(c, k, q), Mul(c, k, r))
  {
    hide IsGroup;
    if k == 0 {
      ZeroLaw(c, c.zero);
    } else {
      MulOfSum(c, k - 1, q, r);
      Interchange(c, q, r, Mul(c, k - 1, q), Mul(c, k - 1, r));
    }
  }

  lemma Interchange<Point(!new)>(c: Curve<Point>, q: Point, r: Point, s: Point, t: Point)
    requires IsGroup(c)
    ensures c.add(c.add(q, r), c.add(s, t)) == c.add(c.add(q, s), c.add(r, t))
  {
    hide IsGroup;
    Associates(c, q, r, c.add(s, t));
    Associates(c, r, s, t);
    Commutes(c, r, s);
    Associates(c, s, r, t);
    Associates(c, q, s, c.add(r, t));
  }

  lemma {:induction false} MulOfMul<Point(!new)>(c: Curve<Point>, a: nat, b: nat, q: Point)
    requires IsGroup(c)
    ensures Mul(c, a, Mul(c, b, q)) == Mul(c, a * b, q)
  {
    hide IsGroup;
    if a > 0 {
      MulOfMul(c, a - 1, b, q);
      MulSum(c, b, (a - 1) * b, q);
      assert b + (a - 1) * b == a * b;
    } else {
      assert a * b == 0;
    }
  }

  /** Scalars may be reduced modulo the group order. */
  lemma MulMod<Point(!new)>(c: Curve<Point>, k: nat, q: Point)
    requires IsGroup(c) && c.n > 0
    ensures Mul(c, k % c.n, q) == Mul(c, k, q)
  {
    hide IsGroup, Mul;
    MulModBy(c, k, k / c.n, k % c.n, q);
  }

  lemma MulModBy<Point(!new)>(c: Curve<Point>, k: nat, d: nat, m: nat, q: Point)
    requires IsGroup(c) && k == d * c.n + m
    ensures Mul(c, m, q) == Mul(c, k, q)
  {
    hide IsGroup, Mul;
    MulSum(c, d * c.n, m, q);
    MulOfMul(c, d, c.n, q);
    OrderLaw(c, q);
    MulOfZero(c, d);
    ZeroLaw(c, Mul(c, m, q));
  }

  lemma NegUnique<Point(!new)>(c: Curve<Point>, a: Point, b: Point)
    requires IsGroup(c) && c.add(a, b) == c.zero
    ensures b == c.neg(a)
  {
    hide IsGroup;
    Associates(c, c.neg(a), a, b);
    NegLaw(c, a);
    ZeroLaw(c, b);
    ZeroLaw(c, c.neg(a));
  }

  lemma MulOfNeg<Point(!new)>(c: Curve<Point>, k: nat, q: Point)
    requires IsGroup(c)
    ensures Mul(c, k, c.neg(q)) == c.neg(Mul(c, k, q))
  {
    hide IsGroup, Mul;
    MulOfSum(c, k, q, c.neg(q));
    NegLaw(c, q);
    MulOfZero(c, k);
    NegUnique(c, Mul(c, k, q), Mul(c, k, c.neg(q)));
  }

  lemma NegTwice<Point(!new)>(c: Curve<Point>, a: Point)
    requires IsGroup(c)
    ensures c.neg(c.neg(a)) == a
  {
    hide IsGroup;
    NegLaw(c, a);
    NegUnique(c, c.neg(a), a);
  }

  /** (n - s)(-Q) = sQ. */
  lemma MulComplement<Point(!new)>(c: Curve<Point>, s: nat, q: Point)
    requires IsGroup(c) && s <= c.n
    ensures Mul(c, c.n - s, c.neg(q)) == Mul(c, s, q)
  {
    hide IsGroup, Mul;
    MulSum(c, s, c.n - s, q);
    OrderLaw(c, q);
    NegUnique(c, Mul(c, s, q), Mul(c, c.n - s, q));
    MulOfNeg(c, c.n - s, q);
    NegTwice(c, Mul(c, s, q));
  }

  lemma MulOne<Point(!new)>(c: Curve<Point>, q: Point)
    requires IsGroup(c)
    ensures Mul(c, 1, q) == q
  {
    ZeroLaw(c, q);
    assert Mul(c, 1, q) == c.add(q, Mul(c, 0, q));
  }

  /** Multiplying by a scalar and by its inverse is the identity. */
  lemma MulInverse<Point(!new)>(c: Curve<Point>, a: nat, q: Point)
    requires IsCurve(c) && 0 < a < c.n
    ensures Mul(c, c.inv(a), Mul(c, a, q)) == q
    ensures Mul(c, a, Mul(c, c.inv(a), q)) == q
  {
    hide IsGroup, IsCurve, Mul;
    CurveFacts(c);
    InverseLaw(c, a);
    var i := c.inv(a);
    MulOfMul(c, i, a, q);
    MulOfMul(c, a, i, q);
    assert i * a == a * i;
    MulMod(c, a * i, q);
    MulOne(c, q);
  }

  lemma SubtractMoves<Point(!new)>(c: Curve<Point>, a: Point, b: Point, d: Point)
    requires IsGroup(c)
    ensures c.add(a, c.neg(b)) == d <==> a == c.add(b, d)
  {
    hide IsGroup;
    NegLaw(c, b);
    Commutes(c, b, c.add(a, c.neg(b)));
    Associates(c, a, c.neg(b), b);
    ZeroLaw(c, a);
    Commutes(c, b, d);
    Associates(c, d, b, c.neg(b));
    ZeroLaw(c, d);
  }

  // ----- ECDSA -----

  /** The point R = s^-1 (eG + rQ) of the verification algorithm, section 4.1.4 of SEC 1. */
  function VerifyPoint<Point>(c: Curve<Point>, r: nat, s: nat, e: nat, q: Point): Point
    requires c.n > 0
  {
    c.add(Mul(c, (e * c.inv(s)) % c.n, c.g), Mul(c, (r * c.inv(s)) % c.n, q))
  }

  predicate Verifies<Point(==)>(c: Curve<Point>, r: nat, s: nat, e: nat, q: Point) {
    && 0 < r < c.n && 0 < s < c.n
    && VerifyPoint(c, r, s, e, q) != c.zero
    && c.x(VerifyPoint(c, r, s, e, q)) % c.n == r
  }

  lemma {:induction false} VerifyPointIsQuotient<Point(!new)>(c: Curve<Point>, r: nat, s: nat, e: nat, q: Point)
    requires IsCurve(c) && 0 < s < c.n
    ensures VerifyPoint(c, r, s, e, q) == Mul(c, c.inv(s), c.add(Mul(c, e, c.g), Mul(c, r, q)))
  {
    hide IsGroup, IsCurve, Mul;
    CurveFacts(c);
    var i := c.inv(s);
    MulMod(c, e * i, c.g);
    MulMod(c, r * i, q);
    MulOfMul(c, i, e, c.g);
    MulOfMul(c, i, r, q);
    assert i * e == e * i && i * r == r * i;
    MulOfSum(c, i, Mul(c, e, c.g), Mul(c, r, q));
  }

  /** sR = eG + rQ characterises that point. */
  lemma {:induction false} VerifyPointEquation<Point(!new)>(c: Curve<Point>, r: nat, s: nat, e: nat, q: Point, t: Point)
    requires IsCurve(c) && 0 < s < c.n
    ensures t == VerifyPoint(c, r, s, e, q) <==> Mul(c, s, t) == c.add(Mul(c, e, c.g), Mul(c, r, q))
  {
    hide IsGroup, IsCurve, Mul, VerifyPoint;
    CurveFacts(c);
    VerifyPointIsQuotient(c, r, s, e, q);
    MulInverse(c, s, t);
    MulInverse(c, s, c.add(Mul(c, e, c.g), Mul(c, r, q)));
  }

  function Normalize<Point>(c: Curve<Point>, s: nat): nat
    requires s < c.n
  {
    if s > c.n / 2 then c.n - s else s
  }

  lemma ComplementVerifyPoint<Point(!new)>(c: Curve<Point>, r: nat, s: nat, e: nat, q: Point)
    requires IsCurve(c) && 0 < s < c.n
    ensures VerifyPoint(c, r, c.n - s, e, q) == c.neg(VerifyPoint(c, r, s, e, q))
  {
    hide IsGroup, IsCurve, Mul, VerifyPoint;
    CurveFacts(c);
    var t := VerifyPoint(c, r, s, e, q);
    VerifyPointEquation(c, r, s, e, q, t);
    MulComplement(c, s, t);
    VerifyPointEquation(c, r, c.n - s, e, q, c.neg(t));
  }

  lemma NegZero<Point(!new)>(c: Curve<Point>, a: Point)
    requires IsGroup(c) && a != c.zero
    ensures c.neg(a) != c.zero
  {
    hide IsGroup;
    NegLaw(c, a);
    ZeroLaw(c, a);
  }

  /** P and -P share x and differ in the parity of y. */
  lemma PairLaw<Point(!new)>(c: Curve<Point>, a: Point)
    requires IsCurve(c) && a != c.zero
    ensures c.x(a) < c.p && c.x(c.neg(a)) == c.x(a) && c.odd(c.neg(a)) != c.odd(a)
  {
    hide IsGroup;
    assert Paired(c, a);
  }

  /** The normalized signature is low and still verifies. */
  lemma NormalizedVerifies<Point(!new)>(c: Curve<Point>, r: nat, s: nat, e: nat, q: Point)
    requires IsCurve(c) && Verifies(c, r, s, e, q)
    ensures 0 < Normalize(c, s) <= c.n / 2
    ensures Verifies(c, r, Normalize(c, s), e, q)
  {
    hide IsGroup, IsCurve, VerifyPoint;
    CurveFacts(c);
    ComplementVerifyPoint(c, r, s, e, q);
    var t := VerifyPoint(c, r, s, e, q);
    NegZero(c, t);
    PairLaw(c, t);
  }

  // ----- the recovery-id search -----

  function CandidateX<Point>(c: Curve<Point>, r: nat, recid: nat): nat {
    if recid >= 2 then r + c.n else r
  }

  /** Q = r^-1 (sR - eG) for the point R that recovery id `recid` names, if there is one. */
  function Recovered<Point>(c: Curve<Point>, r: nat, s: nat, e: nat, recid: nat): Option<Point> {
    match c.decompress(CandidateX(c, r, recid), recid % 2 == 1)
    case None => None
    case Some(point) => Some(Mul(c, c.inv(r), c.add(Mul(c, s, point), c.neg(Mul(c, e, c.g)))))
  }

  predicate Matches<Point(==)>(c: Curve<Point>, r: nat, s: nat, e: nat, q: Point, recid: nat) {
    Recovered(c, r, s, e, recid) == Some(q)
  }

  /** The least matching id below `limit` and not below `recid`, or -1. */
  function FirstMatch<Point(==)>(c: Curve<Point>, limit: nat, r: nat, s: nat, e: nat, q: Point, recid: nat): (found: int)
    ensures found == -1 || recid <= found < limit
    decreases limit - recid
  {
    if recid >= limit then -1
    else if Matches(c, r, s, e, q, recid) then recid
    else FirstMatch(c, limit, r, s, e, q, recid + 1)
  }

  /** The loop of both `findRecoveryId`s: `limit` is 4 in the SDK and 2 in the bridge. */
  method FindRecoveryId<Point(==)>(c: Curve<Point>, limit: nat, e: nat, r: nat, sLow: nat, key: Point) returns (found: int)
    ensures found == FirstMatch(c, limit, r, sLow, e, key, 0)
  {
    hide FirstMatch, Mul;
    found := -1;
    var recid := 0;
    while recid < limit && found < 0
      invariant 0 <= recid
      invariant FirstMatch(c, limit, r, sLow, e, key, 0)
             == if found >= 0 then found else FirstMatch(c, limit, r, sLow, e, key, recid)
      invariant found == -1 || 0 <= found
    {
      FirstMatchStep(c, limit, r, sLow, e, key, recid);
      var x := r;
      if recid >= 2 {
        x := x + c.n;
      }
      var point := c.decompress(x, recid % 2 == 1);
      if point.Some? {
        var eG := Mul(c, e, c.g);
        var sR := Mul(c, sLow, point.value);
        eG := c.neg(eG);
        var q := c.add(sR, eG);
        var rInv := c.inv(r);
        q := Mul(c, rInv, q);
        if q == key {
          found := recid;
        }
      }
      recid := recid + 1;
    }
    FirstMatchStep(c, limit, r, sLow, e, key, recid);
  }

  lemma FirstMatchStep<Point>(c: Curve<Point>, limit: nat, r: nat, s: nat, e: nat, q: Point, recid: nat)
    ensures FirstMatch(c, limit, r, s, e, q, recid)
         == if recid >= limit then -1
            else if Matches(c, r, s, e, q, recid) then recid
            else FirstMatch(c, limit, r, s, e, q, recid + 1)
  {
    hide Matches;
  }

  /** The recovery id of a signature: twice whether R.x overflowed n, plus the parity of R.y. */
  function RecoveryId<Point>(c: Curve<Point>, r: nat, s: nat, e: nat, q: Point): (recid: nat)
    requires c.n > 0
    ensures recid < 4
  {
    var t := VerifyPoint(c, r, s, e, q);
    (if c.x(t) >= c.n then 2 else 0) + (if c.odd(t) then 1 else 0)
  }

  /** A recovery id matches the key exactly when its point is the verification point. */
  lemma MatchIsVerifyPoint<Point(!new)>(c: Curve<Point>, r: nat, s: nat, e: nat, q: Point, recid: nat)
    requires IsCurve(c) && 0 < r < c.n && 0 < s < c.n
    ensures Matches(c, r, s, e, q, recid)
        <==> c.decompress(CandidateX(c, r, recid), recid % 2 == 1) == Some(VerifyPoint(c, r, s, e, q))
  {
    hide IsGroup, IsCurve, VerifyPoint, Mul;
    CurveFacts(c);
    var o := c.decompress(CandidateX(c, r, recid), recid % 2 == 1);
    if o.Some? {
      var t, eG, rQ := o.value, Mul(c, e, c.g), Mul(c, r, q);
      var d := c.add(Mul(c, s, t), c.neg(eG));
      MulInverse(c, r, d);
      MulInverse(c, r, q);
      assert Mul(c, c.inv(r), d) == q <==> d == rQ;
      SubtractMoves(c, Mul(c, s, t), eG, rQ);
      VerifyPointEquation(c, r, s, e, q, t);
    }
  }

  lemma DecompressLaw<Point(!new)>(c: Curve<Point>, v: nat, o: bool, a: Point)
    requires IsCurve(c) && a != c.zero
    ensures c.decompress(v, o) == Some(a) <==> c.x(a) == v % c.p && c.odd(a) == o
  {
    hide IsGroup;
    assert Decompresses(c, v, o, a);
  }

  lemma Multiples(a: int, n: nat)
    ensures a >= 2 ==> a * n >= 2 * n
    ensures a <= 0 ==> a * n <= 0
  {
  }

  lemma ModOnce(x: nat, n: nat)
    requires 0 < n && x < 2 * n
    ensures x % n == if x < n then x else x - n
  {
    assert x == (x / n) * n + x % n;
    Multiples(x / n, n);
  }

  /** The candidate r + n, which OpenSSL reduces modulo p, never aliases another x that gives r. */
  lemma CandidateReduces(n: nat, p: nat, x: nat, r: nat, v: nat)
    requires 2 < n < p < 2 * n && x < p && x % n == r && (v == r || v == r + n)
    ensures x == r || x == r + n
    ensures x == v % p <==> x == v
  {
    ModOnce(x, n);
    ModOnce(v, p);
  }

  lemma CandidateOfPoint<Point(!new)>(c: Curve<Point>, r: nat, t: Point, recid: nat)
    requires IsCurve(c) && 0 < r < c.n && recid < 4 && t != c.zero && c.x(t) % c.n == r
    ensures c.decompress(CandidateX(c, r, recid), recid % 2 == 1) == Some(t)
        <==> recid == (if c.x(t) >= c.n then 2 else 0) + (if c.odd(t) then 1 else 0)
  {
    hide IsGroup, IsCurve;
    CurveFacts(c);
    PairLaw(c, t);
    var v := CandidateX(c, r, recid);
    DecompressLaw(c, v, recid % 2 == 1, t);
    CandidateReduces(c.n, c.p, c.x(t), r, v);
  }

  /** Exactly one recovery id below 4 matches: the one of the verification point. */
  lemma MatchesExactlyRecoveryId<Point(!new)>(c: Curve<Point>, r: nat, s: nat, e: nat, q: Point, recid: nat)
    requires IsCurve(c) && Verifies(c, r, s, e, q) && recid < 4
    ensures Matches(c, r, s, e, q, recid) <==> recid == RecoveryId(c, r, s, e, q)
  {
    hide IsGroup, IsCurve, VerifyPoint, Matches;
    CurveFacts(c);
    MatchIsVerifyPoint(c, r, s, e, q, recid);
    CandidateOfPoint(c, r, VerifyPoint(c, r, s, e, q), recid);
  }

  /** Complementing s negates R, so normalization flips the parity bit and nothing else. */
  lemma NormalizationFlipsParity<Point(!new)>(c: Curve<Point>, r: nat, s: nat, e: nat, q: Point)
    requires IsCurve(c) && Verifies(c, r, s, e, q)
    ensures RecoveryId(c, r, Normalize(c, s), e, q)
         == if s <= c.n / 2 then RecoveryId(c, r, s, e, q)
            else if RecoveryId(c, r, s, e, q) % 2 == 0 then RecoveryId(c, r, s, e, q) + 1
            else RecoveryId(c, r, s, e, q) - 1
  {
    hide IsGroup, IsCurve, VerifyPoint;
    CurveFacts(c);
    ComplementVerifyPoint(c, r, s, e, q);
    PairLaw(c, VerifyPoint(c, r, s, e, q));
  }

  // ----- signDigest -----

  /** r || s || v with v = 27 + recid. */
  function SignatureBytes(r: nat, s: nat, recid: nat): seq<byte>
    requires recid < 4
  {
    BigEndian(r, 32) + BigEndian(s, 32) + [27 + recid]
  }

  lemma {:induction false} ShiftMonotone(v: nat, w: nat, k: nat)
    requires v <= w && ShiftBytes(w, k) == 0
    ensures ShiftBytes(v, k) == 0
  {
    if k > 0 {
      ShiftMonotone(v / 256, w / 256, k - 1);
    }
  }

  /** The 65 bytes determine r, s and the recovery id. */
  lemma SignatureLayout(r: nat, s: nat, recid: nat, n: nat)
    requires recid < 4 && r < n && s < n && FitsBytes(n, 32)
    ensures var out := SignatureBytes(r, s, recid);
      && |out| == 65
      && BigEndianValue(out[..32]) == r && BigEndianValue(out[32..64]) == s && out[64] == 27 + recid
  {
    hide ShiftBytes, BigEndian, BigEndianValue;
    var k: nat :| k <= 32 && ShiftBytes(n, k) == 0;
    ShiftOut(n, 32, k);
    ShiftMonotone(r, n, 32);
    ShiftMonotone(s, n, 32);
    BigEndianRoundTrip(r, 32);
    BigEndianRoundTrip(s, 32);
    var out := SignatureBytes(r, s, recid);
    assert out[..32] == BigEndian(r, 32) && out[32..64] == BigEndian(s, 32);
  }

  /** What the signing primitive returns. */
  datatype Sig = Sig(r: nat, s: nat)

  function Signed<Point(==)>(c: Curve<Point>, limit: nat, digest: seq<byte>, sig: Option<Sig>, key: Point): Outcome<string>
    requires limit <= 4 && (sig.Some? ==> sig.value.s < c.n)
  {
    if |digest| != 32 || sig.None? then Thrown else
    var sLow := Normalize(c, sig.value.s);
    var recid := FirstMatch(c, limit, sig.value.r, sLow, BigEndianValue(digest), key, 0);
    if recid < 0 then Thrown else Returned(Hex.ToHex(SignatureBytes(sig.value.r, sLow, recid)))
  }

  /** `signDigest` with its three failing exits; `sig` is what `ECDSA_do_sign` returned, if anything. */
  method SignDigest<Point(==)>(c: Curve<Point>, limit: nat, digest: seq<byte>, sig: Option<Sig>, key: Point)
    returns (text: Outcome<string>)
    requires limit <= 4 && (sig.Some? ==> sig.value.s < c.n)
    ensures text == Signed(c, limit, digest, sig, key)
  {
    hide Matches, BigEndianValue;
    if |digest| != 32 {
      return Thrown;
    }
    if sig.None? {
      return Thrown;
    }
    var r, s := sig.value.r, sig.value.s;
    var order := c.n;
    var half := order / 2;
    var sLow := s;
    if s > half {
      sLow := order - s;
    }
    var recid := FindRecoveryId(c, limit, BigEndianValue(digest), r, sLow, key);
    if recid < 0 {
      return Thrown;
    }
    var out := SignatureBytes(r, sLow, recid);
    var hex := Hex.SdkToHex(out);
    return Returned(hex);
  }

  lemma {:induction false} FirstMatchIsUnique<Point(!new)>(c: Curve<Point>, limit: nat, r: nat, s: nat, e: nat, q: Point, from: nat)
    requires IsCurve(c) && Verifies(c, r, s, e, q) && limit <= 4
    ensures var id := RecoveryId(c, r, s, e, q);
      FirstMatch(c, limit, r, s, e, q, from) == if from <= id < limit then id else -1
    decreases limit - from
  {
    hide IsGroup, IsCurve, Verifies, Matches, RecoveryId;
    CurveFacts(c);
    if from < limit {
      MatchesExactlyRecoveryId(c, r, s, e, q, from);
      FirstMatchIsUnique(c, limit, r, s, e, q, from + 1);
    }
  }

  /** For every valid signature the SDK's `signDigest` succeeds, with the low s and the one recovery id
      that recovers the key; the bridge's does so exactly when R.x < n, which is also exactly when v is
      27 or 28, and fails otherwise. */
  lemma {:induction false} SigningOutcome<Point(!new)>(c: Curve<Point>, digest: seq<byte>, r: nat, s: nat, key: Point)
    requires IsCurve(c) && |digest| == 32 && Verifies(c, r, s, BigEndianValue(digest), key)
    ensures var e := BigEndianValue(digest);
      var id := RecoveryId(c, r, Normalize(c, s), e, key);
      var out := SignatureBytes(r, Normalize(c, s), id);
      && Signed(c, 4, digest, Some(Sig(r, s)), key) == Returned(Hex.ToHex(out))
      && Matches(c, r, Normalize(c, s), e, key, id)
      && (c.x(VerifyPoint(c, r, s, e, key)) < c.n <==> id < 2)
      && Signed(c, 2, digest, Some(Sig(r, s)), key)
         == if c.x(VerifyPoint(c, r, s, e, key)) < c.n then Returned(Hex.ToHex(out)) else Thrown
  {
    hide IsGroup, IsCurve, Matches, VerifyPoint, SignatureBytes, BigEndianValue, FirstMatch;
    CurveFacts(c);
    var e := BigEndianValue(digest);
    NormalizedVerifies(c, r, s, e, key);
    ComplementVerifyPoint(c, r, s, e, key);
    PairLaw(c, VerifyPoint(c, r, s, e, key));
    FirstMatchIsUnique(c, 4, r, Normalize(c, s), e, key, 0);
    FirstMatchIsUnique(c, 2, r, Normalize(c, s), e, key, 0);
    MatchesExactlyRecoveryId(c, r, Normalize(c, s), e, key, RecoveryId(c, r, Normalize(c, s), e, key));
  }

  /** Every other outcome is a failure: a digest of another length, no signature, or no matching id. */
  lemma SigningFails<Point>(c: Curve<Point>, limit: nat, digest: seq<byte>, sig: Option<Sig>, key: Point)
    requires limit <= 4 && (sig.Some? ==> sig.value.s < c.n)
    ensures Signed(c, limit, digest, sig, key) == Thrown
       <==> |digest| != 32 || sig.None?
            || NoMatch(c, limit, sig.value.r, Normalize(c, sig.value.s), BigEndianValue(digest), key, 0)
  {
    hide Matches, NoMatch, Hex.ToHex, BigEndianValue, Normalize;
    if |digest| == 32 && sig.Some? {
      NoMatchFrom(c, limit, sig.value.r, Normalize(c, sig.value.s), BigEndianValue(digest), key, 0);
    }
  }

  /** No id from `from` on and below `limit` matches. */
  predicate NoMatch<Point(==)>(c: Curve<Point>, limit: nat, r: nat, s: nat, e: nat, q: Point, from: nat) {
    forall recid | from <= recid < limit :: !Matches(c, r, s, e, q, recid)
  }

  lemma {:induction false} NoMatchFrom<Point>(c: Curve<Point>, limit: nat, r: nat, s: nat, e: nat, q: Point, from: nat)
    ensures FirstMatch(c, limit, r, s, e, q, from) == -1
       <==> NoMatch(c, limit, r, s, e, q, from)
    decreases limit - from
  {
    hide Matches;
    if from < limit {
      NoMatchFrom(c, limit, r, s, e, q, from + 1);
    }
  }

  // ----- the assumptions can be met -----

  /** A group of order 7 with six affine points over a field of eleven elements; two of them have x = 10, so
      that x exceeds the order. */
  newtype Residue = k: int | 0 <= k < 7

  function ToyAdd(a: Residue, b: Residue): Residue {
    if a as int + b as int < 7 then (a as int + b as int) as Residue else (a as int + b as int - 7) as Residue
  }

  function ToyNeg(a: Residue): Residue {
    if a == 0 then 0 else (7 - a as int) as Residue
  }

  function ToyX(a: Residue): nat {
    if a == 3 || a == 4 then 10 else if a < 3 then a as int else 7 - a as int
  }

  predicate ToyOdd(a: Residue) {
    a > 3
  }

  function ToyDecompress(v: nat, o: bool): Option<Residue> {
    var x := v % 11;
    if x == 1 then Some(if o then 6 else 1)
    else if x == 2 then Some(if o then 5 else 2)
    else if x == 10 then Some(if o then 4 else 3)
    else None
  }

  function ToyInverse(a: nat): nat {
    if a == 1 then 1 else if a == 2 then 4 else if a == 3 then 5
    else if a == 4 then 2 else if a == 5 then 3 else if a == 6 then 6 else 0
  }

  function Toy(): Curve<Residue> {
    Curve(7, 11, 0, 1, ToyAdd, ToyNeg, ToyX, ToyOdd, ToyDecompress, ToyInverse)
  }

  lemma ToyOrder(a: Residue)
    ensures Mul(Toy(), 7, a) == 0
  {
    var m2 := Mul(Toy(), 2, a);
    var m4 := Mul(Toy(), 4, a);
    assert m2 == ToyAdd(a, a);
    assert m4 == ToyAdd(a, ToyAdd(a, m2));
    assert Mul(Toy(), 7, a) == ToyAdd(a, ToyAdd(a, ToyAdd(a, m4)));
  }

  lemma ToyAssociates(a: Residue, b: Residue, d: Residue)
    ensures ToyAdd(ToyAdd(a, b), d) == ToyAdd(a, ToyAdd(b, d))
  {
  }

  lemma ToyIsGroup()
    ensures IsGroup(Toy())
  {
    hide Mul;
    forall a: Residue, b: Residue, d: Residue {:trigger ToyAdd(ToyAdd(a, b), d)}
      ensures ToyAdd(ToyAdd(a, b), d) == ToyAdd(a, ToyAdd(b, d))
    {
      ToyAssociates(a, b, d);
    }
    forall a: Residue
      ensures Mul(Toy(), 7, a) == 0
    {
      ToyOrder(a);
    }
  }

  lemma ToyHasCoordinates()
    ensures HasCoordinates(Toy())
  {
  }

  /** The assumptions about the curve are consistent. */
  lemma ToyIsCurve()
    ensures IsCurve(Toy())
  {
    hide IsGroup, HasCoordinates, ShiftBytes;
    ToyIsGroup();
    ToyHasCoordinates();
    ToyFits();
  }

  lemma ToyFits()
    ensures FitsBytes(7, 32)
  {
    assert ShiftBytes(7, 1) == 0;
  }

  // ----- a signature whose R.x exceeds the order -----

  lemma ZeroDigest(n: nat)
    ensures BigEndianValue(seq(n, i => 0)) == 0
  {
    if n > 0 {
      assert seq(n, i => 0)[..n - 1] == seq(n - 1, i => 0);
      ZeroDigest(n - 1);
    }
  }

  lemma HighToy(key: Residue)
    requires key == 1 || key == 6
    ensures Verifies(Toy(), 3, 1, 0, key) && Normalize(Toy(), 1) == 1
    ensures RecoveryId(Toy(), 3, 1, 0, key) == if key == 1 then 2 else 3
  {
    assert Mul(Toy(), 0, 1) == 0;
    assert Mul(Toy(), 1, ToyAdd(0, 0)) == 0;
    assert Mul(Toy(), 2, key) == ToyAdd(key, key);
    assert Mul(Toy(), 3, key) == if key == 1 then 3 else 4;
    assert Mul(Toy(), 1, Mul(Toy(), 3, key)) == if key == 1 then 3 else 4;
  }

  /** There v is 29 or 30, by the parity of R.y, and the bridge fails. */
  lemma HighSignature(key: Residue)
    requires key == 1 || key == 6
    ensures var digest, v := seq(32, i => 0), if key == 1 then 29 else 30;
      && Signed(Toy(), 4, digest, Some(Sig(3, 1)), key) == Returned(Hex.ToHex(BigEndian(3, 32) + BigEndian(1, 32) + [v]))
      && Signed(Toy(), 2, digest, Some(Sig(3, 1)), key) == Thrown
  {
    hide BigEndian, BigEndianValue, Verifies, RecoveryId, Signed, IsCurve, Matches, Hex.ToHex, Mul;
    var digest := seq(32, i => 0);
    ToyIsCurve();
    ZeroDigest(32);
    HighToy(key);
    SigningOutcome(Toy(), digest, 3, 1, key);
  }
}
