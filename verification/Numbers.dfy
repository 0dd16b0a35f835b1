/** Numbers as text and as big-endian bytes: `std::to_string`, the overflow-checked decimal
    parsers, the hexadecimal `std::sto*` conversions, and 32-byte words. */
module Numbers {
  import opened Bytes
  import opened Results

  const U64_MAX: nat := 0xFFFF_FFFF_FFFF_FFFF

  lemma SixtyFourBits()
    ensures U64_MAX + 1 == Pow2(64)
  {
    hide Pow2;
    EightBits();
    Pow2Sum(8, 8);
    Pow2Sum(16, 16);
    Pow2Sum(32, 32);
  }

  // ----- decimal -----

  predicate IsDigit(c: char) {
    '0' <= c <= '9'
  }

  predicate AllDigits(s: string) {
    forall i | 0 <= i < |s| :: IsDigit(s[i])
  }

  function DigitChar(d: nat): char
    requires d < 10
  {
    (48 + d) as char
  }

  /** `std::to_string` of an unsigned integer. */
  function Dec(n: nat): (s: string)
    ensures |s| >= 1 && AllDigits(s)
  {
    if n < 10 then [DigitChar(n)] else Dec(n / 10) + [DigitChar(n % 10)]
  }

  /** `std::to_string` of a signed integer. */
  function DecInt(n: int): string {
    if n < 0 then "-" + Dec(-n) else Dec(n)
  }

  /** The number a digit string denotes. */
  function DecValue(s: string): int {
    if s == [] then 0 else 10 * DecValue(s[..|s| - 1]) + (s[|s| - 1] as int - 48)
  }

  lemma {:induction false} DecValueOfDec(n: nat)
    ensures DecValue(Dec(n)) == n
  {
    if n >= 10 {
      DecValueOfDec(n / 10);
      assert Dec(n)[..|Dec(n)| - 1] == Dec(n / 10);
    } else {
      assert Dec(n)[..0] == [];
    }
  }

  /** No printed number but zero starts with a zero. */
  lemma {:induction false} DecHasNoLeadingZero(n: nat)
    ensures Dec(n)[0] == '0' <==> n == 0
  {
    if n >= 10 {
      DecHasNoLeadingZero(n / 10);
    }
  }

  lemma DecInjective(m: nat, n: nat)
    requires Dec(m) == Dec(n)
    ensures m == n
  {
    DecValueOfDec(m);
    DecValueOfDec(n);
  }

  lemma DecIntSign(n: int)
    ensures |DecInt(n)| >= 1 && (DecInt(n)[0] == '-' <==> n < 0)
  {
    if n >= 0 {
      assert IsDigit(Dec(n)[0]);
    }
  }

  /** The number that an optional minus sign and digits denote. */
  function SignedValue(s: string): int {
    if s != [] && s[0] == '-' then 0 - DecValue(s[1..]) else DecValue(s)
  }

  /** A printed number, negative or not, reads back as itself. */
  lemma SignedValueOfDecInt(n: int)
    ensures SignedValue(DecInt(n)) == n
  {
    DecIntSign(n);
    if n < 0 {
      DecValueOfDec(-n);
      assert DecInt(n)[1..] == Dec(-n);
    } else {
      DecValueOfDec(n);
    }
  }

  lemma DecIntInjective(m: int, n: int)
    requires DecInt(m) == DecInt(n)
    ensures m == n
  {
    DecIntSign(m);
    DecIntSign(n);
    if m < 0 {
      assert DecInt(m)[1..] == Dec(-m) && DecInt(n)[1..] == Dec(-n);
      DecInjective(-m, -n);
    } else {
      DecInjective(m, n);
    }
  }

  lemma {:induction false} DecLengthGrows(m: nat, n: nat)
    requires m <= n
    ensures |Dec(m)| <= |Dec(n)|
  {
    if m >= 10 {
      DecLengthGrows(m / 10, n / 10);
    }
  }

  lemma {:induction false} DecLengthBound(n: nat, k: nat, limit: nat)
    requires n < limit && limit == PowerOfTen(k) && k >= 1
    ensures |Dec(n)| <= k
  {
    if n >= 10 {
      DecLengthBound(n / 10, k - 1, PowerOfTen(k - 1));
    }
  }

  function PowerOfTen(k: nat): nat {
    if k == 0 then 1 else 10 * PowerOfTen(k - 1)
  }

  lemma {:induction false} DecValueExtends(s: string, k: nat)
    requires AllDigits(s) && k <= |s|
    ensures 0 <= DecValue(s[..k]) <= DecValue(s)
  {
    if s == [] {
    } else if k == |s| {
      assert s[..k] == s;
      DecValueExtends(s[..|s| - 1], |s| - 1);
    } else {
      assert s[..|s| - 1][..k] == s[..k];
      DecValueExtends(s[..|s| - 1], k);
      DecValueExtends(s[..|s| - 1], 0);
    }
  }

  lemma DecValuePrefix(s: string, i: nat)
    requires i < |s|
    ensures DecValue(s[..i + 1]) == 10 * DecValue(s[..i]) + (s[i] as int - 48)
  {
    assert s[..i + 1][..i] == s[..i];
  }

  /** A non-empty digit string whose value fits 64 bits. */
  predicate IsUint64(s: string) {
    s != [] && AllDigits(s) && DecValue(s) <= U64_MAX
  }

  lemma DecIsUint64(n: nat)
    requires n <= U64_MAX
    ensures IsUint64(Dec(n)) && DecValue(Dec(n)) == n
  {
    DecValueOfDec(n);
  }

  /** AmpCore's `parseUint64`: early returns, and a division guard that never overflows. */
  method ParseUint64(value: string, fallback: nat) returns (r: nat)
    requires fallback <= U64_MAX
    ensures r == if IsUint64(value) then DecValue(value) else fallback
  {
    var acc: nat := 0;
    if value == [] {
      return fallback;
    }
    for i := 0 to |value|
      invariant AllDigits(value[..i])
      invariant acc == DecValue(value[..i]) <= U64_MAX
    {
      var c := value[i];
      if c < '0' || c > '9' {
        return fallback;
      }
      DecValuePrefix(value, i);
      if acc > (U64_MAX - (c as int - 48)) / 10 {
        if AllDigits(value) {
          DecValueExtends(value, i + 1);
        }
        return fallback;
      }
      acc := acc * 10 + (c as int - 48);
    }
    assert value[..|value|] == value;
    return acc;
  }

  /** The SDK's copy of the parser: a flag and `break` instead of early returns, zero on failure. */
  method ParseOrZero(value: string) returns (val: nat)
    ensures val == if IsUint64(value) then DecValue(value) else 0
  {
    val := 0;
    var acc: nat := 0;
    var ok := value != [];
    var i := 0;
    while i < |value|
      invariant 0 <= i <= |value|
      invariant ok == (value != [])
      invariant AllDigits(value[..i])
      invariant acc == DecValue(value[..i]) <= U64_MAX
    {
      var c := value[i];
      if c < '0' || c > '9' {
        ok := false;
        break;
      }
      DecValuePrefix(value, i);
      if acc > (U64_MAX - (c as int - 48)) / 10 {
        if AllDigits(value) {
          DecValueExtends(value, i + 1);
        }
        ok := false;
        break;
      }
      acc := acc * 10 + (c as int - 48);
      i := i + 1;
    }
    if ok {
      assert value[..|value|] == value;
      val := acc;
    }
  }

  // ----- big-endian bytes -----

  /** `v >> (8 * i)`. */
  function ShiftBytes(v: nat, i: nat): nat {
    if i == 0 then v else ShiftBytes(v / 256, i - 1)
  }

  function BigEndian(v: nat, n: nat): (b: seq<byte>)
    ensures |b| == n
  {
    if n == 0 then [] else BigEndian(v / 256, n - 1) + [v % 256]
  }

  function BigEndianValue(b: seq<byte>): nat {
    if b == [] then 0 else 256 * BigEndianValue(b[..|b| - 1]) + b[|b| - 1]
  }

  /** A uint256 as EIP-712 encodes it. */
  function Word32(v: nat): Digest {
    BigEndian(v, 32)
  }

  lemma {:induction false} BigEndianAt(v: nat, n: nat, i: nat)
    requires i < n
    ensures BigEndian(v, n)[n - 1 - i] == ShiftBytes(v, i) % 256
  {
    if i > 0 {
      BigEndianAt(v / 256, n - 1, i - 1);
    }
  }

  lemma {:induction false} ShiftOut(v: nat, i: nat, k: nat)
    requires ShiftBytes(v, k) == 0 && k <= i
    ensures ShiftBytes(v, i) == 0
  {
    if k > 0 {
      ShiftOut(v / 256, i - 1, k - 1);
    } else if i > 0 {
      ShiftOut(v / 256, i - 1, 0);
    }
  }

  lemma Uint64FitsEightBytes(v: nat)
    requires v <= U64_MAX
    ensures ShiftBytes(v, 8) == 0
  {
    ShiftUnrolled(v);
    ShiftUnrolled(ShiftBytes(v, 4));
    ShiftSplit(v, 4, 4);
  }

  lemma ShiftUnrolled(v: nat)
    ensures ShiftBytes(v, 4) == v / 0x1_0000_0000
  {
    var v1 := v / 256;
    var v2 := v1 / 256;
    var v3 := v2 / 256;
    assert ShiftBytes(v, 4) == ShiftBytes(v1, 3) == ShiftBytes(v2, 2) == ShiftBytes(v3, 1) == v3 / 256;
  }

  lemma {:induction false} ShiftSplit(v: nat, i: nat, k: nat)
    ensures ShiftBytes(v, i + k) == ShiftBytes(ShiftBytes(v, i), k)
  {
    if i > 0 {
      ShiftSplit(v / 256, i - 1, k);
    }
  }

  lemma {:induction false} BigEndianRoundTrip(v: nat, n: nat)
    requires ShiftBytes(v, n) == 0
    ensures BigEndianValue(BigEndian(v, n)) == v
  {
    if n > 0 {
      BigEndianRoundTrip(v / 256, n - 1);
      assert BigEndian(v, n)[..n - 1] == BigEndian(v / 256, n - 1);
    }
  }

  /** A 64-bit value is recovered from its word. */
  lemma Word32RoundTrip(v: nat)
    requires v <= U64_MAX
    ensures BigEndianValue(Word32(v)) == v
  {
    Uint64FitsEightBytes(v);
    ShiftOut(v, 32, 8);
    BigEndianRoundTrip(v, 32);
  }

  lemma Word32Injective(v: nat, w: nat)
    requires v <= U64_MAX && w <= U64_MAX && Word32(v) == Word32(w)
    ensures v == w
  {
    Word32RoundTrip(v);
    Word32RoundTrip(w);
  }

  /** `toWord32`: eight bytes stored from the right into a zeroed word. */
  method ToWord32(value: nat) returns (word: array<byte>)
    requires value <= U64_MAX
    ensures fresh(word) && word.Length == 32
    ensures word[..] == Word32(value)
  {
    word := new byte[32](i => 0);
    for i := 0 to 8
      invariant forall j: nat | 31 - i < j < 32 :: word[j] == ShiftBytes(value, 31 - j) % 256
      invariant forall j: nat | j <= 31 - i :: word[j] == 0
    {
      word[31 - i] := ShiftBytes(value, i) % 256;
    }
    Uint64FitsEightBytes(value);
    forall j: nat | j < 32
      ensures word[j] == Word32(value)[j]
    {
      BigEndianAt(value, 32, 31 - j);
      if 31 - j >= 8 {
        ShiftOut(value, 31 - j, 8);
      }
    }
  }

  // ----- std::stoul, std::stoull and std::stoi in base 16 -----

  function HexVal(c: char): (v: int)
    ensures -1 <= v < 16
  {
    if '0' <= c <= '9' then c as int - 48
    else if 'a' <= c <= 'f' then c as int - 97 + 10
    else if 'A' <= c <= 'F' then c as int - 65 + 10
    else -1
  }

  predicate IsHexDigit(c: char) {
    HexVal(c) >= 0
  }

  predicate IsSpace(c: char) {
    c == ' ' || ('\t' as int <= c as int <= '\r' as int)
  }

  function SkipSpaces(s: string): string {
    if s != [] && IsSpace(s[0]) then SkipSpaces(s[1..]) else s
  }

  /** The longest prefix of hexadecimal digits. */
  function HexRun(s: string): (r: string)
    ensures forall i | 0 <= i < |r| :: IsHexDigit(r[i])
  {
    if s != [] && IsHexDigit(s[0]) then [s[0]] + HexRun(s[1..]) else []
  }

  function HexValue(s: string): nat
    requires forall i | 0 <= i < |s| :: IsHexDigit(s[i])
  {
    if s == [] then 0 else
    assert IsHexDigit(s[|s| - 1]);
    16 * HexValue(s[..|s| - 1]) + HexVal(s[|s| - 1])
  }

  function SkipSign(s: string): string {
    if s != [] && (s[0] == '+' || s[0] == '-') then s[1..] else s
  }

  function SkipHexPrefix(s: string): string {
    if |s| >= 3 && s[0] == '0' && (s[1] == 'x' || s[1] == 'X') && IsHexDigit(s[2]) then s[2..] else s
  }

  datatype Conversion = Converted(negative: bool, digits: string) | InvalidArgument

  /** The subject sequence of `strtoul(s, _, 16)`: spaces, an optional sign, an optional 0x, digits. */
  function Subject(s: string): (c: Conversion)
    ensures c.Converted? ==> forall i | 0 <= i < |c.digits| :: IsHexDigit(c.digits[i])
  {
    var t := SkipSpaces(s);
    var digits := HexRun(SkipHexPrefix(SkipSign(t)));
    if digits == [] then InvalidArgument else Converted(t[0] == '-', digits)
  }

  /** `std::stoull(s, nullptr, 16)`, and `std::stoul` where it is 64 bits wide. */
  function StoUll(s: string): (r: Outcome<nat>)
    ensures r.Returned? ==> r.value <= U64_MAX
  {
    var c := Subject(s);
    if c.InvalidArgument? || HexValue(c.digits) > U64_MAX then Thrown
    else if c.negative && HexValue(c.digits) > 0 then Returned(U64_MAX + 1 - HexValue(c.digits))
    else Returned(HexValue(c.digits))
  }

  /** `std::stoi(s, nullptr, 16)` for a 32-bit int. */
  function StoInt(s: string): Outcome<int> {
    var c := Subject(s);
    if c.InvalidArgument? then Thrown else
    var v: int := if c.negative then 0 - HexValue(c.digits) else HexValue(c.digits);
    if -0x8000_0000 <= v <= 0x7FFF_FFFF then Returned(v) else Thrown
  }

  lemma {:induction false} HexRunOfDigits(s: string, rest: string)
    requires forall i | 0 <= i < |s| :: IsHexDigit(s[i])
    requires rest != [] ==> !IsHexDigit(rest[0])
    ensures HexRun(s + rest) == s
  {
    if s == [] {
      assert s + rest == rest;
    } else {
      assert (s + rest)[1..] == s[1..] + rest;
      HexRunOfDigits(s[1..], rest);
    }
  }

  /** On a non-empty run of digits not starting with 0x, the subject sequence is that run. */
  lemma SubjectOfDigits(s: string, rest: string)
    requires s != [] && forall i | 0 <= i < |s| :: IsHexDigit(s[i])
    requires rest != [] ==> !IsHexDigit(rest[0])
    requires |s| == 1 && s[0] == '0' ==> rest == [] || (rest[0] != 'x' && rest[0] != 'X')
    ensures Subject(s + rest) == Converted(false, s)
  {
    var t := s + rest;
    assert t[0] == s[0] && !IsSpace(t[0]) && t[0] != '+' && t[0] != '-';
    if |t| >= 2 {
      assert t[1] == if |s| >= 2 then s[1] else rest[0];
    }
    HexRunOfDigits(s, rest);
  }

  // ----- what the conversions accept -----

  /** Blanks, a sign, a prefix and hexadecimal digits, then anything that does not go on with them. */
  predicate IsNumeral(blanks: string, sign: string, prefix: string, digits: string, rest: string) {
    && (forall i | 0 <= i < |blanks| :: blanks[i] as int in {9, 10, 11, 12, 13, 32})
    && sign in {"", "+", "-"} && prefix in {"", "0x", "0X"}
    && digits != [] && (forall i | 0 <= i < |digits| :: IsHexDigit(digits[i]))
    && (rest != [] ==> !IsHexDigit(rest[0]))
    && (prefix == "" && digits == "0" && |rest| >= 2 && (rest[0] == 'x' || rest[0] == 'X') ==> !IsHexDigit(rest[1]))
  }

  lemma {:induction false} SkipSpacesOf(blanks: string, t: string)
    requires forall i | 0 <= i < |blanks| :: blanks[i] as int in {9, 10, 11, 12, 13, 32}
    requires t != [] && t[0] as int !in {9, 10, 11, 12, 13, 32}
    ensures SkipSpaces(blanks + t) == t
  {
    if blanks == [] {
      assert blanks + t == t;
    } else {
      assert (blanks + t)[1..] == blanks[1..] + t;
      SkipSpacesOf(blanks[1..], t);
    }
  }

  lemma SkipHexPrefixOf(prefix: string, digits: string, rest: string)
    requires IsNumeral("", "", prefix, digits, rest)
    ensures SkipHexPrefix(prefix + (digits + rest)) == digits + rest
  {
    var u := digits + rest;
    var t := prefix + u;
    assert u[0] == digits[0];
    if prefix == "" {
      assert t == u;
      assert |u| >= 2 ==> u[1] == if |digits| >= 2 then digits[1] else rest[0];
      assert |u| >= 3 && |digits| == 1 ==> u[2] == rest[1];
      assert |digits| == 1 && digits[0] == '0' ==> digits == "0";
    } else {
      assert t[2] == u[0] && t[2..] == u;
    }
  }

  /** Such a text converts, with the sign and the digits it shows. */
  lemma NumeralConverts(blanks: string, sign: string, prefix: string, digits: string, rest: string)
    requires IsNumeral(blanks, sign, prefix, digits, rest)
    ensures Subject(blanks + (sign + (prefix + (digits + rest)))) == Converted(sign == "-", digits)
  {
    hide HexVal, SkipSpaces, SkipHexPrefix, HexRun;
    var u := prefix + (digits + rest);
    var t := sign + u;
    NumeralStart(prefix, digits, rest);
    assert t[0] == if sign == "" then u[0] else sign[0];
    SkipSpacesOf(blanks, t);
    if sign == "" {
      assert t == u;
    } else {
      assert t[1..] == u;
    }
    SkipHexPrefixOf(prefix, digits, rest);
    HexRunOfDigits(digits, rest);
  }

  lemma NumeralStart(prefix: string, digits: string, rest: string)
    requires digits != [] && IsHexDigit(digits[0]) && prefix in {"", "0x", "0X"}
    ensures var u := prefix + (digits + rest);
      u[0] as int !in {9, 10, 11, 12, 13, 32} && u[0] != '+' && u[0] != '-'
  {
    assert (prefix + (digits + rest))[0] == if prefix == "" then digits[0] else '0';
  }

  lemma {:induction false} SpacesSkipped(s: string) returns (blanks: string)
    ensures s == blanks + SkipSpaces(s)
    ensures forall i | 0 <= i < |blanks| :: blanks[i] as int in {9, 10, 11, 12, 13, 32}
  {
    if s != [] && IsSpace(s[0]) {
      var more := SpacesSkipped(s[1..]);
      blanks := [s[0]] + more;
    } else {
      blanks := [];
    }
  }

  lemma {:induction false} HexRunStops(s: string) returns (rest: string)
    ensures s == HexRun(s) + rest && (rest != [] ==> !IsHexDigit(rest[0]))
  {
    if s != [] && IsHexDigit(s[0]) {
      rest := HexRunStops(s[1..]);
    } else {
      rest := s;
    }
  }

  lemma SignSkipped(t: string) returns (sign: string)
    ensures t == sign + SkipSign(t) && sign in {"", "+", "-"}
    ensures SkipSign(t) != [] ==> (sign == "-" <==> t[0] == '-')
  {
    sign := if SkipSign(t) == t then "" else [t[0]];
  }

  lemma PrefixSkipped(u: string) returns (prefix: string)
    ensures u == prefix + SkipHexPrefix(u) && prefix in {"", "0x", "0X"}
    ensures prefix == "" && |u| >= 3 && u[0] == '0' && (u[1] == 'x' || u[1] == 'X') ==> !IsHexDigit(u[2])
  {
    hide HexVal;
    prefix := if SkipHexPrefix(u) == u then "" else ['0', u[1]];
  }

  /** Nothing else converts: every text that does has that form. */
  lemma ConvertsOnlyNumerals(s: string)
      returns (blanks: string, sign: string, prefix: string, digits: string, rest: string)
    requires Subject(s).Converted?
    ensures IsNumeral(blanks, sign, prefix, digits, rest) && s == blanks + (sign + (prefix + (digits + rest)))
  {
    hide HexVal, SkipSpaces, SkipSign, SkipHexPrefix, HexRun;
    blanks := SpacesSkipped(s);
    var t := SkipSpaces(s);
    var u := SkipSign(t);
    sign := SignSkipped(t);
    var v := SkipHexPrefix(u);
    prefix := PrefixSkipped(u);
    digits := HexRun(v);
    rest := HexRunStops(v);
    if prefix == "" && digits == "0" && |rest| >= 2 {
      assert u == v && u[0] == '0' && u[1] == rest[0] && u[2] == rest[1];
    }
  }

  /** `std::stoull` of a text that converts: out of range from 2^64 on, and negated modulo 2^64 by a minus
      sign. */
  lemma StoUllIs(s: string)
    requires Subject(s).Converted?
    ensures var v, r := HexValue(Subject(s).digits), StoUll(s);
      && (r.Thrown? <==> v >= Pow2(64))
      && (r.Returned? ==> r.value < Pow2(64) && if Subject(s).negative then (r.value + v) % Pow2(64) == 0 else r.value == v)
  {
    hide Subject, HexValue, Pow2;
    SixtyFourBits();
  }
}
