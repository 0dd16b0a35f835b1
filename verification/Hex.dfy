/** `toHex` and `fromHex` of the SDK (stream and `std::stoul` based) and of AmpCore (table based). */
module Hex {
  import opened Bytes
  import opened Numbers
  import opened Results

  // ----- reference: 0x-prefixed lower-case hexadecimal -----

  function HexChar(v: nat): (c: char)
    requires v < 16
    ensures HexVal(c) == v
  {
    if v < 10 then (48 + v) as char else (87 + v) as char
  }

  function HexPairs(b: seq<byte>): (s: string)
    ensures |s| == 2 * |b|
  {
    if b == [] then [] else HexPairs(b[..|b| - 1]) + [HexChar(b[|b| - 1] / 16), HexChar(b[|b| - 1] % 16)]
  }

  function ToHex(b: seq<byte>): string {
    "0x" + HexPairs(b)
  }

  predicate AllHex(s: string) {
    forall i | 0 <= i < |s| :: IsHexDigit(s[i])
  }

  /** 0x followed by an even number of hexadecimal digits. */
  predicate IsHexString(h: string) {
    |h| >= 2 && h[..2] == "0x" && |h| % 2 == 0 && AllHex(h[2..])
  }

  function PairBytes(s: string): (b: seq<byte>)
    requires |s| % 2 == 0 && AllHex(s)
    ensures |b| == |s| / 2
  {
    if s == [] then [] else
    assert IsHexDigit(s[|s| - 2]) && IsHexDigit(s[|s| - 1]);
    PairBytes(s[..|s| - 2]) + [16 * HexVal(s[|s| - 2]) + HexVal(s[|s| - 1])]
  }

  /** The bytes a well-formed string denotes. */
  function HexBytes(h: string): (b: seq<byte>)
    requires IsHexString(h)
    ensures |b| == (|h| - 2) / 2
  {
    PairBytes(h[2..])
  }

  function LowerChar(c: char): char {
    if 'A' <= c <= 'Z' then (c as int + 32) as char else c
  }

  function Lower(s: string): (r: string)
    ensures |r| == |s|
  {
    seq(|s|, i requires 0 <= i < |s| => LowerChar(s[i]))
  }

  /** The hexadecimal digits in both cases, with the place of the lower case as value. */
  lemma HexDigitIs(c: char)
    ensures IsHexDigit(c) <==> c in "0123456789abcdefABCDEF"
    ensures IsHexDigit(c) ==> "0123456789abcdef"[HexVal(c)] == LowerChar(c)
  {
    LetterOrDigit(c);
    if '0' <= c <= '9' {
      assert c == "0123456789abcdefABCDEF"[c as int - 48];
    } else if 'a' <= c <= 'f' {
      assert c == "0123456789abcdefABCDEF"[c as int - 87];
    } else if 'A' <= c <= 'F' {
      assert c == "0123456789abcdefABCDEF"[c as int - 49];
    }
  }

  lemma LetterOrDigit(c: char)
    ensures c in "0123456789abcdefABCDEF" ==> '0' <= c <= '9' || 'a' <= c <= 'f' || 'A' <= c <= 'F'
  {
  }

  lemma LowerCaseDigit(c: char, d: char)
    requires LowerChar(c) == LowerChar(d)
    ensures HexVal(c) == HexVal(d)
  {
  }

  // ----- round trips -----

  lemma {:induction false} HexPairsAreHex(b: seq<byte>)
    ensures AllHex(HexPairs(b))
  {
    if b != [] {
      HexPairsAreHex(b[..|b| - 1]);
    }
  }

  lemma PairBytesStep(s: string)
    requires |s| % 2 == 0 && AllHex(s)
    ensures s == [] ==> PairBytes(s) == []
    ensures s != [] ==> PairBytes(s) == PairBytes(s[..|s| - 2]) + [16 * HexVal(s[|s| - 2]) + HexVal(s[|s| - 1])]
  {
    hide HexVal;
  }

  lemma HexPairsStep(b: seq<byte>)
    ensures b == [] ==> HexPairs(b) == []
    ensures b != [] ==> HexPairs(b) == HexPairs(b[..|b| - 1]) + [HexChar(b[|b| - 1] / 16), HexChar(b[|b| - 1] % 16)]
  {
    hide HexChar;
  }

  lemma {:induction false} PairBytesOfHexPairs(b: seq<byte>)
    ensures AllHex(HexPairs(b)) && PairBytes(HexPairs(b)) == b
  {
    hide HexChar, HexVal, HexPairs, PairBytes;
    HexPairsAreHex(b);
    HexPairsStep(b);
    PairBytesStep(HexPairs(b));
    if b != [] {
      var s, front := HexPairs(b), b[..|b| - 1];
      PairBytesOfHexPairs(front);
      assert s[..|s| - 2] == HexPairs(front);
      assert 16 * (b[|b| - 1] / 16) + b[|b| - 1] % 16 == b[|b| - 1];
      assert front + [b[|b| - 1]] == b;
    }
  }

  /** Decoding the encoding gives the bytes back. */
  lemma DecodeOfEncode(b: seq<byte>)
    ensures IsHexString(ToHex(b)) && HexBytes(ToHex(b)) == b
  {
    hide HexVal, HexChar;
    PairBytesOfHexPairs(b);
    assert ToHex(b)[2..] == HexPairs(b);
  }

  lemma HexCharOfVal(c: char)
    requires IsHexDigit(c)
    ensures HexChar(HexVal(c)) == LowerChar(c)
  {
  }

  lemma {:induction false} HexPairsOfPairBytes(s: string)
    requires |s| % 2 == 0 && AllHex(s)
    ensures HexPairs(PairBytes(s)) == Lower(s)
  {
    hide HexVal, HexChar, Lower, LowerChar, HexPairs, PairBytes;
    PairBytesStep(s);
    HexPairsStep(PairBytes(s));
    if s == [] {
      assert Lower(s) == [];
    } else {
      var t, hi, lo := s[..|s| - 2], s[|s| - 2], s[|s| - 1];
      HexPairsOfPairBytes(t);
      assert IsHexDigit(hi) && IsHexDigit(lo);
      HexCharOfVal(hi);
      HexCharOfVal(lo);
      assert PairBytes(s)[..|PairBytes(s)| - 1] == PairBytes(t);
      LowerPair(hi, lo);
      LowerConcat(t, [hi, lo]);
      assert t + [hi, lo] == s;
    }
  }

  lemma LowerPair(hi: char, lo: char)
    ensures Lower([hi, lo]) == [LowerChar(hi), LowerChar(lo)]
  {
  }

  lemma LowerConcat(s: string, t: string)
    ensures Lower(s + t) == Lower(s) + Lower(t)
  {
    hide LowerChar;
  }

  lemma LowerPrefix()
    ensures Lower("0x") == "0x"
  {
  }

  /** Encoding the decoding lower-cases a well-formed string. */
  lemma EncodeOfDecode(h: string)
    requires IsHexString(h)
    ensures ToHex(HexBytes(h)) == Lower(h)
  {
    hide HexPairs, PairBytes, Lower, AllHex;
    HexPairsOfPairBytes(h[2..]);
    assert h == "0x" + h[2..];
    LowerConcat("0x", h[2..]);
    LowerPrefix();
  }

  /** Two well-formed strings denote the same bytes exactly when they differ only in letter case. */
  lemma SameBytes(g: string, h: string)
    requires IsHexString(g) && IsHexString(h)
    ensures HexBytes(g) == HexBytes(h) <==> Lower(g) == Lower(h)
  {
    hide ToHex, HexBytes, Lower, IsHexString;
    EncodeOfDecode(g);
    EncodeOfDecode(h);
    DecodeOfEncode(HexBytes(g));
    DecodeOfEncode(HexBytes(h));
  }

  // ----- the encoders -----

  /** `std::hex << int` without padding. */
  function HexNumber(n: nat): (s: string)
    ensures |s| >= 1
  {
    if n < 16 then [HexChar(n)] else HexNumber(n / 16) + [HexChar(n % 16)]
  }

  /** `std::setfill('0') << std::setw(2)`. */
  function Fill2(s: string): string {
    if s == [] then "00" else if |s| == 1 then "0" + s else s
  }

  lemma StreamedByte(v: byte)
    ensures Fill2(HexNumber(v)) == [HexChar(v / 16), HexChar(v % 16)]
  {
    if v < 16 {
      assert HexChar(0) == '0';
    } else {
      assert HexNumber(v / 16) == [HexChar(v / 16)];
    }
  }

  method SdkToHex(data: seq<byte>) returns (out: string)
    ensures out == ToHex(data)
  {
    out := "0x";
    for i := 0 to |data|
      invariant out == ToHex(data[..i])
    {
      StreamedByte(data[i]);
      out := out + Fill2(HexNumber(data[i]));
      assert data[..i + 1][..i] == data[..i];
    }
    assert data[..|data|] == data;
  }

  method CoreToHex(data: seq<byte>) returns (out: string)
    ensures out == ToHex(data)
  {
    var digits := "0123456789abcdef";
    forall v: nat | v < 16
      ensures digits[v] == HexChar(v)
    {
    }
    out := "0x";
    for i := 0 to |data|
      invariant out == ToHex(data[..i])
    {
      out := out + [digits[data[i] / 16]];
      out := out + [digits[data[i] % 16]];
      assert data[..i + 1][..i] == data[..i];
    }
    assert data[..|data|] == data;
  }

  // ----- the decoders -----

  /** AmpCore accepts 0x and 0X, and stops at the first pair that is not hexadecimal. */
  function CoreStrip(h: string): string {
    if |h| >= 2 && h[0] == '0' && (h[1] == 'x' || h[1] == 'X') then h[2..] else h
  }

  function CorePairs(s: string): seq<byte> {
    if |s| < 2 || HexVal(s[0]) < 0 || HexVal(s[1]) < 0 then []
    else [16 * HexVal(s[0]) + HexVal(s[1])] + CorePairs(s[2..])
  }

  function CoreDecode(hex: string): seq<byte> {
    CorePairs(CoreStrip(hex))
  }

  lemma CorePairsStep(h: string, i: nat, done: seq<byte>)
    requires i + 1 < |h| && HexVal(h[i]) >= 0 && HexVal(h[i + 1]) >= 0
    ensures done + CorePairs(h[i..]) == done + [HexVal(h[i]) * 16 + HexVal(h[i + 1])] + CorePairs(h[i + 2..])
  {
    hide HexVal;
    assert h[i..][2..] == h[i + 2..];
  }

  lemma CorePairsStop(h: string, i: nat)
    requires i <= |h| && (i + 1 < |h| ==> HexVal(h[i]) < 0 || HexVal(h[i + 1]) < 0)
    ensures CorePairs(h[i..]) == []
  {
    hide HexVal;
  }

  method CoreFromHex(hex: string) returns (out: seq<byte>)
    ensures out == CoreDecode(hex)
  {
    hide HexVal, CoreStrip, CorePairs;
    var h := CoreStrip(hex);
    out := [];
    var i := 0;
    assert h[0..] == h;
    while i + 1 < |h|
      invariant 0 <= i <= |h|
      invariant CorePairs(h) == out + CorePairs(h[i..])
    {
      var hi, lo := HexVal(h[i]), HexVal(h[i + 1]);
      if hi < 0 || lo < 0 {
        break;
      }
      CorePairsStep(h, i, out);
      out := out + [hi * 16 + lo];
      i := i + 2;
    }
    CorePairsStop(h, i);
  }

  function SdkStrip(h: string): string {
    if |h| >= 2 && h[..2] == "0x" then h[2..] else h
  }

  /** The SDK converts each pair with `std::stoul`, which may throw. */
  function SdkPairs(s: string): Outcome<seq<byte>> {
    if |s| < 2 then Returned([]) else
    var v := StoUll(s[..2]);
    if v.Thrown? then Thrown else
    var rest := SdkPairs(s[2..]);
    if rest.Thrown? then Thrown else Returned([v.value % 256] + rest.value)
  }

  function SdkDecode(hex: string): Outcome<seq<byte>> {
    SdkPairs(SdkStrip(hex))
  }

  function Prepend(b: seq<byte>, o: Outcome<seq<byte>>): Outcome<seq<byte>> {
    if o.Thrown? then Thrown else Returned(b + o.value)
  }

  lemma PrependNothing(o: Outcome<seq<byte>>)
    ensures Prepend([], o) == o
  {
    if o.Returned? {
      assert [] + o.value == o.value;
    }
  }

  lemma PrependMore(b: seq<byte>, c: seq<byte>, o: Outcome<seq<byte>>)
    ensures Prepend(b, Prepend(c, o)) == Prepend(b + c, o)
  {
    if o.Returned? {
      assert b + (c + o.value) == b + c + o.value;
    }
  }

  method SdkFromHex(hex: string) returns (out: Outcome<seq<byte>>)
    ensures out == SdkDecode(hex)
  {
    hide StoUll, SdkStrip;
    var clean := SdkStrip(hex);
    var bytes: seq<byte> := [];
    var i := 0;
    assert clean[0..] == clean;
    PrependNothing(SdkPairs(clean));
    while i + 1 < |clean|
      invariant 0 <= i <= |clean|
      invariant SdkPairs(clean) == Prepend(bytes, SdkPairs(clean[i..]))
    {
      var v := StoUll(clean[i..i + 2]);
      assert clean[i..][..2] == clean[i..i + 2] && clean[i..][2..] == clean[i + 2..];
      if v.Thrown? {
        return Thrown;
      }
      PrependMore(bytes, [v.value % 256], SdkPairs(clean[i + 2..]));
      bytes := bytes + [v.value % 256];
      i := i + 2;
    }
    assert SdkPairs(clean[i..]) == Returned([]) && bytes + [] == bytes;
    return Returned(bytes);
  }

  // ----- agreement on well-formed strings -----

  /** What `std::stoul` makes of a pair of hexadecimal digits. */
  lemma StoUllOfPair(hi: char, lo: char)
    requires IsHexDigit(hi) && IsHexDigit(lo)
    ensures StoUll([hi, lo]) == Returned(16 * HexVal(hi) + HexVal(lo))
  {
    var s := [hi, lo];
    SubjectOfDigits(s, []);
    assert s + [] == s;
    assert s[..1] == [hi] && [hi][..0] == [];
    assert HexValue([hi]) == HexVal(hi);
  }

  lemma {:induction false} SdkPairsOfHex(s: string)
    requires |s| % 2 == 0 && AllHex(s)
    ensures SdkPairs(s) == Returned(PairBytes(s))
  {
    hide HexVal, StoUll;
    if s != [] {
      assert s[..2] == [s[0], s[1]];
      StoUllOfPair(s[0], s[1]);
      SdkPairsOfHex(s[2..]);
      PairBytesFront(s);
    }
  }

  lemma {:induction false} PairBytesFront(s: string)
    requires |s| % 2 == 0 && AllHex(s) && s != []
    ensures PairBytes(s) == [16 * HexVal(s[0]) + HexVal(s[1])] + PairBytes(s[2..])
  {
    hide HexVal, PairBytes;
    PairBytesStep(s);
    PairBytesStep(s[2..]);
    var front := s[..|s| - 2];
    if |s| > 2 {
      PairBytesFront(front);
      assert front[2..] == s[2..][..|s| - 4];
    } else {
      PairBytesStep(front);
    }
  }

  /** The SDK decoder returns the denoted bytes and does not throw. */
  lemma SdkDecodesHex(h: string)
    requires IsHexString(h)
    ensures SdkDecode(h) == Returned(HexBytes(h))
  {
    SdkPairsOfHex(h[2..]);
  }

  lemma {:induction false} CorePairsOfHex(s: string)
    requires |s| % 2 == 0 && AllHex(s)
    ensures CorePairs(s) == PairBytes(s)
  {
    if s != [] {
      assert IsHexDigit(s[0]) && IsHexDigit(s[1]);
      CorePairsOfHex(s[2..]);
      PairBytesFront(s);
    }
  }

  /** So does the AmpCore decoder. */
  lemma CoreDecodesHex(h: string)
    requires IsHexString(h)
    ensures CoreDecode(h) == HexBytes(h)
  {
    assert CoreStrip(h) == h[2..];
    CorePairsOfHex(h[2..]);
  }

  /** The case of the letters does not matter: of two texts that differ in it alone both are well formed or
      neither is, and they denote the same bytes. */
  lemma CaseDoesNotMatter(g: string, h: string)
    requires IsHexString(g) && |h| == |g| && h[..2] == "0x" && Lower(h) == Lower(g)
    ensures IsHexString(h) && HexBytes(h) == HexBytes(g)
  {
    hide HexVal, LowerChar, HexBytes;
    forall i | 0 <= i < |h| - 2
      ensures IsHexDigit(h[2..][i])
    {
      assert h[2..][i] == h[i + 2] && g[2..][i] == g[i + 2];
      assert Lower(h)[i + 2] == LowerChar(h[i + 2]) && Lower(g)[i + 2] == LowerChar(g[i + 2]);
      LowerCaseDigit(h[i + 2], g[i + 2]);
      assert IsHexDigit(g[2..][i]);
    }
    SameBytes(h, g);
  }

  // ----- prefixes and malformed texts -----

  lemma {:induction false} CorePairsOf(s: string, rest: string)
    requires |s| % 2 == 0 && AllHex(s)
    requires |rest| >= 2 ==> !IsHexDigit(rest[0]) || !IsHexDigit(rest[1])
    ensures CorePairs(s + rest) == PairBytes(s)
  {
    hide HexVal;
    if s == [] {
      assert s + rest == rest;
    } else {
      assert IsHexDigit(s[0]) && IsHexDigit(s[1]);
      assert (s + rest)[2..] == s[2..] + rest;
      CorePairsOf(s[2..], rest);
      PairBytesFront(s);
    }
  }

  /** AmpCore drops 0x, 0X or nothing, and decodes the pairs up to the first that is not hexadecimal. */
  lemma CoreDecodesPrefix(prefix: string, s: string, rest: string)
    requires prefix in {"0x", "0X", ""} && |s| % 2 == 0 && AllHex(s)
    requires |rest| >= 2 ==> !IsHexDigit(rest[0]) || !IsHexDigit(rest[1])
    requires prefix == "" && s == [] ==> |rest| < 2 || rest[0] != '0' || (rest[1] != 'x' && rest[1] != 'X')
    ensures CoreDecode(prefix + (s + rest)) == PairBytes(s)
  {
    hide HexVal, CorePairs;
    var t := s + rest;
    CorePairsOf(s, rest);
    if prefix == "" {
      assert prefix + t == t;
      if s != [] {
        XIsNoDigit();
        assert IsHexDigit(s[1]) && t[1] == s[1];
      }
    } else {
      assert (prefix + t)[2..] == t;
    }
  }

  lemma XIsNoDigit()
    ensures !IsHexDigit('x') && !IsHexDigit('X')
  {
  }

  lemma SdkStrips(s: string)
    requires AllHex(s)
    ensures SdkStrip("0x" + s) == s && SdkStrip(s) == s && SdkStrip("0X" + s) == "0X" + s
  {
    hide HexVal;
    assert ("0x" + s)[2..] == s && ("0x" + s)[..2] == "0x" && ("0X" + s)[..2] == "0X";
    assert "0X"[1] != "0x"[1];
    if |s| >= 2 {
      XIsNoDigit();
      assert IsHexDigit(s[1]) && s[..2][1] == s[1];
    }
  }

  lemma SdkPairsStep(pair: string, s: string)
    requires |pair| == 2 && StoUll(pair).Returned? && SdkPairs(s).Returned?
    ensures SdkPairs(pair + s) == Returned([StoUll(pair).value % 256] + SdkPairs(s).value)
  {
    hide StoUll;
    assert (pair + s)[..2] == pair && (pair + s)[2..] == s;
  }

  /** The SDK drops 0x but not 0X, which it takes for a byte of its own, a zero. */
  lemma SdkPrefixes(s: string)
    requires |s| % 2 == 0 && AllHex(s)
    ensures SdkDecode("0x" + s) == Returned(PairBytes(s)) && SdkDecode(s) == Returned(PairBytes(s))
    ensures SdkDecode("0X" + s) == Returned([0] + PairBytes(s))
  {
    hide HexVal, StoUll, SdkPairs, SdkStrip, PairBytes;
    SdkPairsOfHex(s);
    SdkStrips(s);
    ZeroThenX();
    SdkPairsStep("0X", s);
  }

  lemma ZeroThenX()
    ensures StoUll("0X") == Returned(0)
  {
    XIsNoDigit();
    assert IsHexDigit('0') && "" + ("" + ("" + ("0" + "X"))) == "0X";
    NumeralConverts("", "", "", "0", "X");
    assert "0"[..0] == [];
  }
}
