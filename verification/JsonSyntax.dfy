/** The grammar of RFC 8259 for flat objects of strings: what `build` writes is such an object, and what
    `getString` reads of a string is what the string denotes. Texts are one character to a byte. */
module JsonSyntax {
  import opened Numbers
  import opened Hex
  import opened Results
  import opened Json

  // ----- strings, section 7 -----

  function FourHex(s: string): Option<nat>
    requires |s| == 4
  {
    if IsHexDigit(s[0]) && IsHexDigit(s[1]) && IsHexDigit(s[2]) && IsHexDigit(s[3])
    then Some(4096 * HexVal(s[0]) + 256 * HexVal(s[1]) + 16 * HexVal(s[2]) + HexVal(s[3]))
    else None
  }

  /** The character at the start of a string's body and the length of its notation; no surrogates. */
  function Character(s: string): (r: Option<(char, nat)>)
    requires s != []
    ensures r.Some? ==> 1 <= r.value.1 <= |s|
  {
    if s[0] != '\\' then (if s[0] as int < 0x20 || s[0] == '"' then None else Some((s[0], 1)))
    else if |s| < 2 then None
    else if s[1] == '"' || s[1] == '\\' || s[1] == '/' then Some((s[1], 2))
    else if s[1] == 'b' then Some((8 as char, 2))
    else if s[1] == 'f' then Some((12 as char, 2))
    else if s[1] == 'n' then Some((10 as char, 2))
    else if s[1] == 'r' then Some((13 as char, 2))
    else if s[1] == 't' then Some((9 as char, 2))
    else if s[1] != 'u' || |s| < 6 then None
    else
      match FourHex(s[2..6])
      case None => None
      case Some(code) => if 0xD800 <= code < 0xE000 then None else Some((code as char, 6))
  }

  /** What a string denotes and what follows its closing quote, from its opening quote on. */
  function StringBody(s: string): (r: Option<(string, string)>)
    ensures r.Some? ==> |r.value.1| < |s|
    decreases |s|
  {
    if s == [] then None
    else if s[0] == '"' then Some(([], s[1..]))
    else
      match Character(s)
      case None => None
      case Some((c, n)) =>
        match StringBody(s[n..])
        case None => None
        case Some((text, rest)) => Some(([c] + text, rest))
  }

  // ----- objects, sections 2 and 4 -----

  function SkipWhite(s: string): (r: string)
    ensures |r| <= |s|
  {
    if s != [] && s[0] as int in {0x20, 0x09, 0x0A, 0x0D} then SkipWhite(s[1..]) else s
  }

  /** What follows the given character, after any white space. */
  function Expect(s: string, c: char): (r: Option<string>)
    ensures r.Some? ==> |r.value| < |s|
  {
    var t := SkipWhite(s);
    if t != [] && t[0] == c then Some(t[1..]) else None
  }

  function QuotedString(s: string): (r: Option<(string, string)>)
    ensures r.Some? ==> |r.value.1| < |s|
  {
    match Expect(s, '"')
    case None => None
    case Some(body) => StringBody(body)
  }

  function Pair(s: string): (r: Option<((string, string), string)>)
    ensures r.Some? ==> |r.value.1| < |s|
  {
    match QuotedString(s)
    case None => None
    case Some((key, afterKey)) =>
      match Expect(afterKey, ':')
      case None => None
      case Some(afterColon) =>
        match QuotedString(afterColon)
        case None => None
        case Some((value, rest)) => Some(((key, value), rest))
  }

  /** One or more pairs up to the closing brace. */
  function Pairs(s: string): Option<seq<(string, string)>>
    decreases |s|
  {
    match Pair(s)
    case None => None
    case Some((p, rest)) =>
      if Expect(rest, '}').Some? then (if SkipWhite(Expect(rest, '}').value) == [] then Some([p]) else None)
      else
        match Expect(rest, ',')
        case None => None
        case Some(more) =>
          match Pairs(more)
          case None => None
          case Some(ps) => Some([p] + ps)
  }

  function Object(s: string): Option<seq<(string, string)>> {
    match Expect(s, '{')
    case None => None
    case Some(inside) =>
      if Expect(inside, '}').Some? then (if SkipWhite(Expect(inside, '}').value) == [] then Some([]) else None)
      else Pairs(inside)
  }

  // ----- what build writes is JSON -----

  lemma EscapedCharacter(c: char, rest: string)
    ensures EscapeChar(c) != [] && EscapeChar(c)[0] != '"'
    ensures Character(EscapeChar(c) + rest) == Some((c, |EscapeChar(c)|))
  {
    hide HexChar, HexVal;
    var s := EscapeChar(c) + rest;
    if c as int < 0x20 && c != '\n' && c != '\r' && c != '\t' {
      var hi, lo := HexChar(c as int / 16), HexChar(c as int % 16);
      ZeroDigit();
      assert s[..6] == "\\u00" + [hi, lo];
      assert s[2..6] == ['0', '0', hi, lo];
      assert 16 * (c as int / 16) + c as int % 16 == c as int;
    }
  }

  lemma {:induction false} EscapedBody(v: string, rest: string)
    ensures StringBody(Escape(v) + ("\"" + rest)) == Some((v, rest))
  {
    hide EscapeChar, Character;
    var close := "\"" + rest;
    if v == [] {
      assert Escape(v) + close == close;
    } else {
      var e := EscapeChar(v[0]);
      var u := Escape(v[1..]) + close;
      assert Escape(v) + close == e + u;
      EscapedCharacter(v[0], u);
      assert (e + u)[|e|..] == u;
      EscapedBody(v[1..], rest);
      assert [v[0]] + v[1..] == v;
    }
  }

  lemma ExpectHere(c: char, rest: string)
    requires c as int !in {0x20, 0x09, 0x0A, 0x0D}
    ensures Expect([c] + rest, c) == Some(rest)
    ensures forall d: char :: d != c ==> Expect([c] + rest, d) == None
  {
    assert ([c] + rest)[1..] == rest;
  }

  lemma {:induction false} ExpectAfterGap(gap: string, c: char, rest: string)
    requires IsGap(gap) && c as int !in {0x20, 0x09, 0x0A, 0x0D}
    ensures Expect(gap + ([c] + rest), c) == Some(rest)
  {
    if gap == [] {
      assert gap + ([c] + rest) == [c] + rest;
      ExpectHere(c, rest);
    } else {
      assert (gap + ([c] + rest))[1..] == gap[1..] + ([c] + rest);
      ExpectAfterGap(gap[1..], c, rest);
    }
  }

  /** From the opening quote of the first member on. */
  function FromQuote(members: seq<Member>): string
    requires members != []
  {
    "\"" + Escape(members[0].key) + ("\"" + FromColon(members))
  }

  lemma QuotedAfterGap(gap: string, v: string, t: string)
    requires IsGap(gap)
    ensures QuotedString(gap + ("\"" + Escape(v) + ("\"" + t))) == Some((v, t))
  {
    hide Escape, StringBody, Expect;
    var body := Escape(v) + ("\"" + t);
    assert "\"" + Escape(v) + ("\"" + t) == ['"'] + body;
    ExpectAfterGap(gap, '"', body);
    EscapedBody(v, t);
  }

  lemma PairOfMember(members: seq<Member>)
    requires members != [] && IsGap(members[0].gap)
    ensures Pair(FromQuote(members)) == Some(((members[0].key, members[0].value), Members(members[1..], false) + "}"))
  {
    hide Escape, QuotedString, Expect, Members;
    var m, t := members[0], Members(members[1..], false) + "}";
    var value := "\"" + Escape(m.value) + ("\"" + t);
    assert [] + FromQuote(members) == FromQuote(members);
    QuotedAfterGap([], m.key, FromColon(members));
    Assoc(":", m.gap, value);
    ExpectHere(':', m.gap + value);
    QuotedAfterGap(m.gap, m.value, t);
  }

  function Denoted(members: seq<Member>): seq<(string, string)> {
    seq(|members|, i requires 0 <= i < |members| => (members[i].key, members[i].value))
  }

  predicate Gapped(members: seq<Member>) {
    forall i | 0 <= i < |members| :: IsGap(members[i].gap)
  }

  lemma FirstMember(members: seq<Member>)
    requires members != []
    ensures Members(members, true) + "}" == FromQuote(members)
    ensures Members(members, false) + "}" == [','] + FromQuote(members)
  {
    hide Escape, Members, FromColon;
    MembersText(members, true);
    MembersText(members, false);
    assert "" + FromQuote(members) == FromQuote(members);
  }

  lemma {:induction false} PairsOfMembers(members: seq<Member>)
    requires members != [] && Gapped(members)
    ensures Pairs(FromQuote(members)) == Some(Denoted(members))
    decreases |members|
  {
    hide Escape, Members, Pair, Expect, FromQuote;
    var rest := members[1..];
    PairOfMember(members);
    if rest == [] {
      NoMembersText(false);
      assert "}" == ['}'] + [];
      ExpectHere('}', []);
      assert Denoted(members) == [(members[0].key, members[0].value)];
    } else {
      FirstMember(rest);
      ExpectHere(',', FromQuote(rest));
      PairsOfMembers(rest);
      assert Denoted(members) == [(members[0].key, members[0].value)] + Denoted(rest);
    }
  }

  /** The text of any members, whatever their keys and values, is a JSON object that denotes them. */
  lemma ObjectOfMembers(members: seq<Member>)
    requires Gapped(members)
    ensures Object(ObjectText(members)) == Some(Denoted(members))
  {
    hide Escape, Members, Pairs, Expect, FromColon;
    var inside := Members(members, true) + "}";
    assert ObjectText(members) == ['{'] + inside;
    ExpectHere('{', inside);
    if members == [] {
      NoMembersText(true);
      assert inside == ['}'] + [];
      ExpectHere('}', []);
      assert Denoted(members) == [];
    } else {
      FirstMember(members);
      var tail := Escape(members[0].key) + ("\"" + FromColon(members));
      assert inside == ['"'] + tail;
      ExpectHere('"', tail);
      PairsOfMembers(members);
    }
  }

  /** `build` writes a JSON object of the present fields, for all keys and values. */
  lemma BuildIsJson(fields: seq<Field>)
    ensures Object(BuildText(fields)) == Some(Denoted(Present(fields)))
  {
    hide Object, ObjectText, Denoted;
    PresentIsGapped(fields);
    ObjectOfMembers(Present(fields));
  }

  lemma {:induction false} PresentIsGapped(fields: seq<Field>)
    ensures Gapped(Present(fields))
  {
    if fields != [] {
      PresentIsGapped(fields[1..]);
    }
  }

  // ----- what getString reads of a string -----

  /** A character noted as \b or \f, or above 255. */
  predicate Odd(s: string)
    requires s != [] && Character(s).Some?
  {
    (s[0] == '\\' && (s[1] == 'b' || s[1] == 'f')) || Character(s).value.0 as int > 255
  }

  predicate HasOdd(s: string)
    decreases |s|
  {
    s != [] && s[0] != '"' && Character(s).Some? && (Odd(s) || HasOdd(s[Character(s).value.1..]))
  }

  lemma CodeUnitOf(a: char, b: char, c: char, d: char)
    requires IsHexDigit(a) && IsHexDigit(b) && IsHexDigit(c) && IsHexDigit(d)
    ensures CodeUnit([a, b, c, d]) == [((4096 * HexVal(a) + 256 * HexVal(b) + 16 * HexVal(c) + HexVal(d)) % 256) as char]
  {
    hide HexVal, Subject;
    FourDigits(a, b, c, d);
    FourDigitSubject(a, b, c, d);
  }

  /** One turn of the reader at a character of a JSON string: one character, the right one unless odd. */
  lemma StepReads(s: string)
    requires s != [] && s[0] != '"' && Character(s).Some? && |s| > Character(s).value.1
    ensures ReadStep(s).1 == Character(s).value.1 && |ReadStep(s).0| == 1
    ensures s[0] as int <= 255 || s[0] == '\\' ==> (ReadStep(s).0[0] == Character(s).value.0 <==> !Odd(s))
  {
    hide HexVal, CodeUnit;
    if s[0] == '\\' && s[1] == 'u' {
      assert s[2..6] == [s[2], s[3], s[4], s[5]];
      CodeUnitOf(s[2], s[3], s[4], s[5]);
    }
  }

  predicate Bytewise(s: string) {
    forall i | 0 <= i < |s| :: s[i] as int <= 255
  }

  /** On a JSON string `getString` reads what the string denotes exactly when it has no odd character. */
  lemma {:induction false} ReadsWhatIsDenoted(s: string)
    requires Bytewise(s) && StringBody(s).Some?
    ensures |ReadString(s)| == |StringBody(s).value.0|
    ensures ReadString(s) == StringBody(s).value.0 <==> !HasOdd(s)
    decreases |s|
  {
    hide Character, ReadStep, Odd;
    if s[0] != '"' {
      var n := Character(s).value.1;
      var t := s[n..];
      assert t != [];
      StepReads(s);
      ReadsWhatIsDenoted(t);
      var c, d := ReadStep(s).0, [Character(s).value.0];
      assert ReadString(s) == c + ReadString(t);
      assert StringBody(s).value.0 == d + StringBody(t).value.0;
      assert c == [c[0]];
      assert ReadString(s)[0] == c[0] && ReadString(s)[1..] == ReadString(t);
      assert StringBody(s).value.0[0] == d[0] && StringBody(s).value.0[1..] == StringBody(t).value.0;
    }
  }
}
