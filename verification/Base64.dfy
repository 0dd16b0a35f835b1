/** Base64 (section 4 of RFC 4648) as the WebSocket handshake key is written. */
module Base64 {
  import opened Bytes
  import opened Results

  // ----- the alphabet -----

  function UpperCase(): (t: string)
    ensures |t| == 26
  {
    "ABCDEFGHIJKLMNOPQRSTUVWXYZ"
  }

  function LowerCase(): (t: string)
    ensures |t| == 26
  {
    "abcdefghijklmnopqrstuvwxyz"
  }

  function Decimals(): (t: string)
    ensures |t| == 10
  {
    "0123456789"
  }

  function Table(): (t: string)
    ensures |t| == 64
  {
    UpperCase() + LowerCase() + Decimals() + "+/"
  }

  function DigitChar(d: nat): char
    requires d < 64
  {
    Table()[d]
  }

  /** Table 1 of RFC 4648 read backwards. */
  function CharDigit(c: char): (d: Option<nat>)
    ensures d.Some? ==> d.value < 64
  {
    if 'A' <= c <= 'Z' then Some((c - 'A') as nat)
    else if 'a' <= c <= 'z' then Some(26 + (c - 'a') as nat)
    else if '0' <= c <= '9' then Some(52 + (c - '0') as nat)
    else if c == '+' then Some(62)
    else if c == '/' then Some(63)
    else None
  }

  lemma UpperCaseAt(d: nat)
    requires d < 26
    ensures UpperCase()[d] == 'A' + d as char
  {
  }

  lemma LowerCaseAt(d: nat)
    requires d < 26
    ensures LowerCase()[d] == 'a' + d as char
  {
  }

  lemma DecimalAt(d: nat)
    requires d < 10
    ensures Decimals()[d] == '0' + d as char
  {
  }

  /** The table lists the alphabet in order, and `=` is not in it. */
  lemma TableIsAlphabet(d: nat)
    requires d < 64
    ensures CharDigit(DigitChar(d)) == Some(d) && DigitChar(d) != '='
  {
    hide UpperCase, LowerCase, Decimals;
    if d < 26 {
      UpperCaseAt(d);
    } else if d < 52 {
      LowerCaseAt(d - 26);
    } else if d < 62 {
      DecimalAt(d - 52);
    }
  }

  // ----- encoding -----

  function ByteAt(data: seq<byte>, i: nat): byte {
    if i < |data| then data[i] else 0
  }

  function Number(x: nat, y: nat, z: nat): nat {
    x * 0x1_0000 + y * 0x100 + z
  }

  /** The three bytes from `i` on as a 24-bit number, missing ones being zero. */
  function Group(data: seq<byte>, i: nat): (n: nat)
    ensures n < 0x100_0000
  {
    Number(ByteAt(data, i), ByteAt(data, i + 1), ByteAt(data, i + 2))
  }

  /** One quantum: of the four characters, as many are digits as there are bytes left, plus one. */
  function Quantum(n: nat, left: nat): (q: string)
    requires n < 0x100_0000 && left > 0
    ensures |q| == 4
  {
    [DigitChar(n / 0x4_0000),
     DigitChar(n / 0x1000 % 64),
     if left > 1 then DigitChar(n / 64 % 64) else '=',
     if left > 2 then DigitChar(n % 64) else '=']
  }

  /** The text of the bytes from `i` on. */
  function EncodeFrom(data: seq<byte>, i: nat): string
    decreases |data| - i
  {
    if i >= |data| then "" else Quantum(Group(data, i), |data| - i) + EncodeFrom(data, i + 3)
  }

  method ReadGroup(data: seq<byte>, i: nat) returns (n: nat)
    requires i < |data|
    ensures n == Group(data, i)
  {
    var b: nat := data[i];
    n := b * 0x1_0000;
    if i + 1 < |data| {
      b := data[i + 1];
      n := n + b * 0x100;
    }
    if i + 2 < |data| {
      b := data[i + 2];
      n := n + b;
    }
  }

  method Base64Encode(data: seq<byte>) returns (out: string)
    ensures out == EncodeFrom(data, 0)
  {
    hide DigitChar, EncodeFrom, Group;
    EncodeStep(data, 0);
    out := "";
    var i := 0;
    while i < |data|
      invariant out + EncodeFrom(data, i) == EncodeFrom(data, 0)
      decreases |data| - i
    {
      ghost var before := out;
      var n := ReadGroup(data, i);
      out := out + [DigitChar(n / 0x4_0000)];
      out := out + [DigitChar(n / 0x1000 % 64)];
      out := out + [if i + 1 < |data| then DigitChar(n / 64 % 64) else '='];
      out := out + [if i + 2 < |data| then DigitChar(n % 64) else '='];
      Appended(before, data, i);
      i := i + 3;
    }
    EncodeStep(data, i);
    assert out + "" == out;
  }

  lemma EncodeStep(data: seq<byte>, i: nat)
    ensures EncodeFrom(data, i)
         == if i >= |data| then "" else Quantum(Group(data, i), |data| - i) + EncodeFrom(data, i + 3)
  {
  }

  lemma Appended(before: string, data: seq<byte>, i: nat)
    requires i < |data|
    ensures var n := Group(data, i);
      before + [DigitChar(n / 0x4_0000)] + [DigitChar(n / 0x1000 % 64)]
             + [if i + 1 < |data| then DigitChar(n / 64 % 64) else '=']
             + [if i + 2 < |data| then DigitChar(n % 64) else '=']
             + EncodeFrom(data, i + 3)
      == before + EncodeFrom(data, i)
  {
    hide DigitChar, Group;
  }

  lemma QuantumIs(n: nat, left: nat)
    requires n < 0x100_0000 && left > 0
    ensures Quantum(n, left) == [DigitChar(n / 0x4_0000), DigitChar(n / 0x1000 % 64),
                                 if left > 1 then DigitChar(n / 64 % 64) else '=',
                                 if left > 2 then DigitChar(n % 64) else '=']
  {
  }

  // ----- the RFC decoder -----

  /** The bytes of one quantum. Padding ends the text: two `=` leave one byte, one leaves two, and the bits
      that padding cuts off must be zero. */
  function DecodeQuantum(q: string, final: bool): Option<seq<byte>>
    requires |q| == 4
  {
    var a, b, c, d := CharDigit(q[0]), CharDigit(q[1]), CharDigit(q[2]), CharDigit(q[3]);
    if a.None? || b.None? then None
    else if final && q[2] == '=' && q[3] == '=' then
      if b.value % 16 == 0 then Some([a.value * 4 + b.value / 16]) else None
    else if c.None? then None
    else if final && q[3] == '=' then
      if c.value % 4 == 0 then Some([a.value * 4 + b.value / 16, b.value % 16 * 16 + c.value / 4]) else None
    else if d.None? then None
    else Some([a.value * 4 + b.value / 16, b.value % 16 * 16 + c.value / 4, c.value % 4 * 64 + d.value])
  }

  function Decode(s: string): Option<seq<byte>> {
    if s == [] then Some([])
    else if |s| < 4 then None
    else
      match DecodeQuantum(s[..4], |s| == 4)
      case None => None
      case Some(bytes) =>
        match Decode(s[4..])
        case None => None
        case Some(rest) => Some(bytes + rest)
  }

  // ----- the round trip -----

  lemma QuantumRoundTrip(data: seq<byte>, i: nat)
    requires i < |data|
    ensures DecodeQuantum(Quantum(Group(data, i), |data| - i), |data| - i <= 3)
         == Some(if i + 3 <= |data| then data[i..i + 3] else data[i..])
  {
    hide DecodeQuantum, Quantum;
    var x, y, z := ByteAt(data, i), ByteAt(data, i + 1), ByteAt(data, i + 2);
    DecodeBytes(x, y, z, |data| - i);
    var part := if i + 3 <= |data| then data[i..i + 3] else data[i..];
    assert part == [x, y, z][..|part|];
  }

  lemma DecodeBytes(x: byte, y: byte, z: byte, left: nat)
    requires left > 0 && (left <= 2 ==> z == 0) && (left == 1 ==> y == 0)
    ensures Number(x, y, z) < 0x100_0000
    ensures DecodeQuantum(Quantum(Number(x, y, z), left), left <= 3) == Some([x, y, z][..if left < 3 then left else 3])
  {
    hide DigitChar, CharDigit, Quantum, DecodeQuantum, Number;
    var b, c := x % 4 * 16 + y / 16, y % 16 * 4 + z / 64;
    Sextets(x, y, z);
    TableIsAlphabet(x / 4);
    TableIsAlphabet(b);
    TableIsAlphabet(c);
    TableIsAlphabet(z % 64);
    Reassembled(x, y, z);
    QuantumIs(Number(x, y, z), left);
    DecodeDigits(Quantum(Number(x, y, z), left), x / 4, b, c, z % 64, left);
  }

  lemma DecodeDigits(q: string, a: nat, b: nat, c: nat, d: nat, left: nat)
    requires a < 64 && b < 64 && c < 64 && d < 64 && left > 0 && |q| == 4
    requires CharDigit(q[0]) == Some(a) && CharDigit(q[1]) == Some(b)
    requires if left > 1 then CharDigit(q[2]) == Some(c) && q[2] != '=' else q[2] == '=' && b % 16 == 0
    requires if left > 2 then CharDigit(q[3]) == Some(d) && q[3] != '=' else q[3] == '=' && (left == 2 ==> c % 4 == 0)
    ensures var bytes := [a * 4 + b / 16, b % 16 * 16 + c / 4, c % 4 * 64 + d];
      DecodeQuantum(q, left <= 3) == Some(bytes[..if left < 3 then left else 3])
  {
    hide CharDigit;
    var bytes := [a * 4 + b / 16, b % 16 * 16 + c / 4, c % 4 * 64 + d];
    assert bytes[..1] == [bytes[0]] && bytes[..2] == [bytes[0], bytes[1]] && bytes[..3] == bytes;
  }

  lemma Reassembled(x: byte, y: byte, z: byte)
    ensures var a, b, c, d := x / 4, x % 4 * 16 + y / 16, y % 16 * 4 + z / 64, z % 64;
      && a * 4 + b / 16 == x && b % 16 * 16 + c / 4 == y && c % 4 * 64 + d == z
      && (y == 0 ==> b % 16 == 0) && (z == 0 ==> c % 4 == 0)
  {
  }

  lemma Sextets(x: byte, y: byte, z: byte)
    ensures var n := Number(x, y, z);
      && n < 0x100_0000 && n / 0x4_0000 == x / 4 && n / 0x1000 % 64 == x % 4 * 16 + y / 16
      && n / 64 % 64 == y % 16 * 4 + z / 64 && n % 64 == z % 64
  {
    var b, c := x % 4 * 16 + y / 16, y % 16 * 4 + z / 64;
    var n := Number(x, y, z);
    var high := (x / 4) * 64 + b;
    assert n == (high * 64 + c) * 64 + z % 64;
    LastSextet(high * 64 + c, z % 64);
    LastSextet(high, c);
    LastSextet(x / 4, b);
    assert n / 64 / 64 == n / 0x1000 && n / 0x1000 / 64 == n / 0x4_0000;
  }

  lemma LastSextet(q: nat, d: nat)
    requires d < 64
    ensures (q * 64 + d) / 64 == q && (q * 64 + d) % 64 == d
  {
  }

  /** The decoder inverts the encoder on every byte sequence. */
  lemma {:induction false} DecodeOfEncode(data: seq<byte>, i: nat)
    requires i <= |data|
    ensures Decode(EncodeFrom(data, i)) == Some(data[i..])
    decreases |data| - i
  {
    hide Quantum, DecodeQuantum, Group;
    if i < |data| {
      var q := Quantum(Group(data, i), |data| - i);
      var rest := EncodeFrom(data, i + 3);
      QuantumRoundTrip(data, i);
      DecodeMore(q, rest);
      if i + 3 < |data| {
        LengthFrom(data, i + 3);
        DecodeOfEncode(data, i + 3);
        assert data[i..] == data[i..i + 3] + data[i + 3..];
      } else {
        assert data[i..] + [] == data[i..];
        assert i + 3 == |data| ==> data[i..i + 3] == data[i..];
      }
    } else {
      assert data[i..] == [];
    }
  }

  lemma DecodeMore(q: string, rest: string)
    requires |q| == 4
    ensures Decode(q + rest) == match DecodeQuantum(q, rest == [])
                                case None => None
                                case Some(bytes) => match Decode(rest)
                                                    case None => None
                                                    case Some(more) => Some(bytes + more)
  {
    hide DecodeQuantum;
    assert (q + rest)[..4] == q && (q + rest)[4..] == rest;
  }

  // ----- length and padding -----

  function Ceil3(n: nat): nat {
    (n + 2) / 3
  }

  lemma {:induction false} LengthFrom(data: seq<byte>, i: nat)
    requires i <= |data|
    ensures |EncodeFrom(data, i)| == 4 * Ceil3(|data| - i)
    decreases |data| - i
  {
    hide Quantum, Group;
    if i + 3 <= |data| {
      LengthFrom(data, i + 3);
    }
  }

  /** How many `=` end the text of `n` bytes. */
  function Padding(n: nat): nat {
    if n % 3 == 0 then 0 else 3 - n % 3
  }

  /** `=` stands in the last `Padding` places and nowhere else. */
  lemma {:induction false} PaddingFrom(data: seq<byte>, i: nat, k: nat)
    requires i <= |data| && k < |EncodeFrom(data, i)|
    ensures EncodeFrom(data, i)[k] == '=' <==> k >= |EncodeFrom(data, i)| - Padding(|data| - i)
    decreases |data| - i
  {
    hide Group, Quantum, EncodeFrom, Ceil3, Padding;
    EncodeStep(data, i);
    LengthFrom(data, i);
    var n, left := Group(data, i), |data| - i;
    PaddingPeriod(left);
    if k < 4 {
      PaddingInQuantum(n, left, k);
    } else {
      LengthFrom(data, i + 3);
      PaddingFrom(data, i + 3, k - 4);
    }
  }

  lemma PaddingPeriod(left: nat)
    ensures 0 < left <= 3 ==> Ceil3(left) == 1 && Padding(left) == 3 - left
    ensures left > 3 ==> Ceil3(left) == Ceil3(left - 3) + 1 >= 2 && Padding(left) == Padding(left - 3) <= 2
  {
  }

  lemma PaddingInQuantum(n: nat, left: nat, k: nat)
    requires n < 0x100_0000 && left > 0 && k < 4
    ensures Quantum(n, left)[k] == '=' <==> k > left
  {
    hide DigitChar, CharDigit;
    TableIsAlphabet(n / 0x4_0000);
    TableIsAlphabet(n / 0x1000 % 64);
    TableIsAlphabet(n / 64 % 64);
    TableIsAlphabet(n % 64);
  }

  /** The text of any bytes: it decodes to them, is four characters to each started group of three, and is
      padded exactly at its end. */
  lemma Base64IsRfc(data: seq<byte>)
    ensures var s := EncodeFrom(data, 0);
      && Decode(s) == Some(data) && |s| == 4 * Ceil3(|data|)
      && forall k | 0 <= k < |s| :: s[k] == '=' <==> k >= |s| - Padding(|data|)
  {
    DecodeOfEncode(data, 0);
    assert data[0..] == data;
    LengthFrom(data, 0);
    forall k | 0 <= k < |EncodeFrom(data, 0)|
      ensures EncodeFrom(data, 0)[k] == '=' <==> k >= |EncodeFrom(data, 0)| - Padding(|data|)
    {
      PaddingFrom(data, 0, k);
    }
  }
}
