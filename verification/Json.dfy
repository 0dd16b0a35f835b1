/** The flat JSON builder and the substring-search extractor. */
module Json {
  import opened Numbers
  import opened Hex
  import opened Results
  import opened Text

  // ----- escape and build -----

  function EscapeChar(c: char): string {
    if c == '"' then "\\\""
    else if c == '\\' then "\\\\"
    else if c == '\n' then "\\n"
    else if c == '\r' then "\\r"
    else if c == '\t' then "\\t"
    else if c as int < 0x20 then "\\u00" + [HexChar(c as int / 16), HexChar(c as int % 16)]
    else [c]
  }

  function Escape(s: string): string {
    if s == [] then [] else EscapeChar(s[0]) + Escape(s[1..])
  }

  type Field = (string, Option<string>)

  /** A member of an object, with what stands between its colon and its value. */
  datatype Member = Member(key: string, gap: string, value: string)

  /** Fields without a value are omitted. */
  function Present(fields: seq<Field>): seq<Member> {
    if fields == [] then []
    else (if fields[0].1.Some? then [Member(fields[0].0, "", fields[0].1.value)] else []) + Present(fields[1..])
  }

  function Quoted(s: string): string {
    "\"" + Escape(s) + "\""
  }

  /** The members with a comma before each but, if `first`, the first. */
  function Members(members: seq<Member>, first: bool): string {
    if members == [] then []
    else (if first then "" else ",") + (Quoted(members[0].key) + (":" + members[0].gap) + Quoted(members[0].value)) + Members(members[1..], false)
  }

  function ObjectText(members: seq<Member>): string {
    "{" + Members(members, true) + "}"
  }

  function BuildText(fields: seq<Field>): string {
    ObjectText(Present(fields))
  }

  lemma EscapeFirst(c: char, t: string)
    ensures Escape([c] + t) == EscapeChar(c) + Escape(t)
  {
    hide EscapeChar;
    assert ([c] + t)[1..] == t;
  }

  lemma {:induction false} EscapeConcat(s: string, t: string)
    ensures Escape(s + t) == Escape(s) + Escape(t)
  {
    hide EscapeChar, Escape;
    if s == [] {
      assert s + t == t;
      EscapeNothing();
    } else {
      var u := s[1..];
      EscapeConcat(u, t);
      EscapeFirst(s[0], u + t);
      EscapeFirst(s[0], u);
      assert s == [s[0]] + u && s + t == [s[0]] + (u + t);
      assert EscapeChar(s[0]) + (Escape(u) + Escape(t)) == EscapeChar(s[0]) + Escape(u) + Escape(t);
    }
  }

  lemma EscapeNothing()
    ensures Escape([]) == []
  {
  }

  lemma EscapeMore(s: string, c: char)
    ensures Escape(s + [c]) == Escape(s) + EscapeChar(c)
  {
    hide EscapeChar, Escape;
    EscapeConcat(s, [c]);
    EscapeFirst(c, []);
    EscapeNothing();
    assert [c] + [] == [c];
  }

  method EscapeLoop(s: string) returns (oss: string)
    ensures oss == Escape(s)
  {
    hide EscapeChar, Escape;
    oss := "";
    EscapeNothing();
    for i := 0 to |s|
      invariant oss == Escape(s[..i])
    {
      EscapeMore(s[..i], s[i]);
      assert s[..i] + [s[i]] == s[..i + 1];
      oss := oss + EscapeChar(s[i]);
    }
    assert s[..|s|] == s;
  }

  lemma MembersStep(done: string, p: Member, rest: seq<Member>, first: bool)
    requires p.gap == ""
    ensures done + Members([p] + rest, first)
         == done + (if first then "" else ",") + ("\"" + Escape(p.key) + "\":\"" + Escape(p.value) + "\"") + Members(rest, false)
  {
    hide Escape;
    var sep := if first then "" else ",";
    var text := Quoted(p.key) + (":" + p.gap) + Quoted(p.value);
    assert text == "\"" + Escape(p.key) + "\":\"" + Escape(p.value) + "\"";
    assert ([p] + rest)[1..] == rest;
    assert done + (sep + text + Members(rest, false)) == done + sep + text + Members(rest, false);
  }

  lemma PresentStep(fields: seq<Field>, i: nat)
    requires i < |fields|
    ensures Present(fields[i..])
         == (if fields[i].1.Some? then [Member(fields[i].0, "", fields[i].1.value)] else []) + Present(fields[i + 1..])
  {
    assert fields[i..][1..] == fields[i + 1..];
  }

  method Build(fields: seq<Field>) returns (oss: string)
    ensures oss == BuildText(fields)
  {
    hide Escape, Members, Present;
    oss := "{";
    var first := true;
    assert fields[0..] == fields;
    for i := 0 to |fields|
      invariant "{" + Members(Present(fields), true) == oss + Members(Present(fields[i..]), first)
    {
      PresentStep(fields, i);
      var k, v := fields[i].0, fields[i].1;
      if v.None? {
        assert [] + Present(fields[i + 1..]) == Present(fields[i + 1..]);
        continue;
      }
      MembersStep(oss, Member(k, "", v.value), Present(fields[i + 1..]), first);
      if !first {
        oss := oss + ",";
      }
      var key := EscapeLoop(k);
      var value := EscapeLoop(v.value);
      oss := oss + ("\"" + key + "\":\"" + value + "\"");
      first := false;
    }
    NoMembers(fields[|fields|..], first);
    oss := oss + "}";
  }

  lemma NoMembers(fields: seq<Field>, first: bool)
    requires fields == []
    ensures Members(Present(fields), first) == []
  {
  }

  // ----- getString -----

  function SkipBlanks(s: string): string {
    if s != [] && (s[0] == ' ' || s[0] == '\t') then SkipBlanks(s[1..]) else s
  }

  /** `static_cast<char>(std::stoi(hex, nullptr, 16))`, nothing if it throws. */
  function CodeUnit(hex: string): string {
    match StoInt(hex)
    case Returned(v) => [(v % 256) as char]
    case Thrown => []
  }

  /** One turn of the escape loop: the text it appends and the characters it consumes. */
  function ReadStep(s: string): (r: (string, nat))
    requires s != []
    ensures 1 <= r.1 <= |s|
  {
    if s[0] == '\\' && |s| > 1 then
      if s[1] == 'n' then ("\n", 2)
      else if s[1] == 'r' then ("\r", 2)
      else if s[1] == 't' then ("\t", 2)
      else if s[1] == 'u' then (if |s| > 5 then (CodeUnit(s[2..6]), 6) else ([], 2))
      else ([s[1]], 2)
    else ([s[0]], 1)
  }

  /** The text the loop collects from the cursor on, up to a bare quote or the end. */
  function ReadString(s: string): string {
    if s == [] || s[0] == '"' then [] else ReadStep(s).0 + ReadString(s[ReadStep(s).1..])
  }

  function ReadValue(s: string): Option<string> {
    match After(s, ":")
    case None => None
    case Some(t) =>
      var u := SkipBlanks(t);
      if u == [] || u[0] != '"' then None else Some(ReadString(u[1..]))
  }

  function GetText(json: string, field: string): Option<string> {
    match After(json, "\"" + field + "\"")
    case None => None
    case Some(rest) => ReadValue(rest)
  }

  method SkipLoop(json: string, start: nat) returns (p: nat)
    requires start <= |json|
    ensures start <= p <= |json| && SkipBlanks(json[start..]) == json[p..]
  {
    p := start;
    while p < |json| && (json[p] == ' ' || json[p] == '\t')
      invariant start <= p <= |json|
      invariant SkipBlanks(json[start..]) == SkipBlanks(json[p..])
    {
      assert json[p..][1..] == json[p + 1..];
      p := p + 1;
    }
  }

  method GetString(json: string, field: string) returns (r: Option<string>)
    ensures r == GetText(json, field)
  {
    hide ReadString, After, SkipBlanks, FindFrom;
    var needle := "\"" + field + "\"";
    var pos := FindFrom(json, needle, 0);
    assert json[0..] == json;
    FindFromIsAfter(json, needle, 0);
    if pos.None? {
      return None;
    }
    var after := pos.value + |needle|;
    var colon := FindFrom(json, ":", after);
    FindFromIsAfter(json, ":", after);
    if colon.None? {
      return None;
    }
    var p := SkipLoop(json, colon.value + 1);
    if p >= |json| || json[p] != '"' {
      return None;
    }
    assert json[p..][1..] == json[p + 1..];
    var out := ReadLoop(json, p + 1);
    return Some(out);
  }

  method ReadLoop(json: string, start: nat) returns (out: string)
    requires start <= |json|
    ensures out == ReadString(json[start..])
  {
    hide ReadString, CodeUnit;
    var p := start;
    out := "";
    while p < |json| && json[p] != '"'
      invariant start <= p <= |json|
      invariant ReadString(json[start..]) == out + ReadString(json[p..])
      decreases |json| - p
    {
      ghost var rest, before, q := json[p..], out, p;
      assert rest[0] == json[p];
      if json[p] == '\\' && p + 1 < |json| {
        assert rest[1] == json[p + 1];
        p := p + 1;
        if json[p] == 'n' {
          out := out + "\n";
        } else if json[p] == 'r' {
          out := out + "\r";
        } else if json[p] == 't' {
          out := out + "\t";
        } else if json[p] == 'u' {
          if p + 4 < |json| {
            assert rest[2..6] == json[p + 1..p + 5];
            out := out + CodeUnit(json[p + 1..p + 5]);
            p := p + 4;
          }
        } else {
          out := out + [json[p]];
        }
      } else {
        out := out + [json[p]];
      }
      p := p + 1;
      assert out == before + ReadStep(rest).0 && p == q + ReadStep(rest).1;
      ReadMore(rest, before);
      assert rest[ReadStep(rest).1..] == json[p..];
    }
    ReadEnd(json[p..]);
  }

  lemma ReadMore(s: string, done: string)
    requires s != [] && s[0] != '"'
    ensures done + ReadString(s) == done + ReadStep(s).0 + ReadString(s[ReadStep(s).1..])
  {
    hide ReadStep;
  }

  lemma ReadEnd(s: string)
    requires s == [] || s[0] == '"'
    ensures ReadString(s) == []
  {
  }

  // ----- reading back what build wrote -----

  lemma FourDigits(a: char, b: char, c: char, d: char)
    requires IsHexDigit(a) && IsHexDigit(b) && IsHexDigit(c) && IsHexDigit(d)
    ensures HexValue([a, b, c, d]) == 4096 * HexVal(a) + 256 * HexVal(b) + 16 * HexVal(c) + HexVal(d)
  {
    hide HexVal;
    var s := [a, b, c, d];
    assert s[..3] == [a, b, c] && [a, b, c][..2] == [a, b] && [a, b][..1] == [a] && [a][..0] == [];
    assert HexValue([a]) == HexVal(a);
    assert HexValue([a, b]) == 16 * HexVal(a) + HexVal(b);
    assert HexValue([a, b, c]) == 16 * HexValue([a, b]) + HexVal(c);
  }

  lemma ZeroDigit()
    ensures HexVal('0') == 0
  {
  }

  lemma FourDigitSubject(a: char, b: char, c: char, d: char)
    requires IsHexDigit(a) && IsHexDigit(b) && IsHexDigit(c) && IsHexDigit(d)
    ensures Subject([a, b, c, d]) == Converted(false, [a, b, c, d])
  {
    hide HexVal, Subject;
    var s := [a, b, c, d];
    SubjectOfDigits(s, []);
    assert s + [] == s;
  }

  lemma EscapedControl(c: char)
    requires c as int < 0x20
    ensures CodeUnit("00" + [HexChar(c as int / 16), HexChar(c as int % 16)]) == [c]
  {
    hide HexVal, HexChar, Subject;
    var hi, lo := HexChar(c as int / 16), HexChar(c as int % 16);
    ZeroDigit();
    FourDigits('0', '0', hi, lo);
    FourDigitSubject('0', '0', hi, lo);
    assert "00" + [hi, lo] == ['0', '0', hi, lo];
    assert 16 * (c as int / 16) + c as int % 16 == c as int;
  }

  lemma ReadEscapedChar(c: char, rest: string)
    requires rest != []
    ensures ReadString(EscapeChar(c) + rest) == [c] + ReadString(rest)
  {
    hide CodeUnit, HexChar;
    var e := EscapeChar(c);
    var s := e + rest;
    if c as int < 0x20 && c != '\n' && c != '\r' && c != '\t' {
      EscapedControl(c);
      var hi, lo := HexChar(c as int / 16), HexChar(c as int % 16);
      assert s == "\\u00" + [hi, lo] + rest;
      assert s[2..6] == "00" + [hi, lo];
      assert s[6..] == rest;
      assert ReadStep(s) == ([c], 6);
    } else {
      assert s[|e|..] == rest;
      assert ReadStep(s) == ([c], |e|);
    }
  }

  /** The reader undoes the escaping of any value, up to its closing quote. */
  lemma {:induction false} ReadEscaped(v: string, rest: string)
    ensures ReadString(Escape(v) + ("\"" + rest)) == v
  {
    hide EscapeChar, ReadStep;
    var close := "\"" + rest;
    if v == [] {
      assert Escape(v) + close == close;
    } else {
      var u := Escape(v[1..]) + close;
      assert Escape(v) + close == EscapeChar(v[0]) + u;
      ReadEscapedChar(v[0], u);
      ReadEscaped(v[1..], rest);
    }
  }

  // ----- where the search lands -----

  /** Identifier-like: no quote, backslash, control character, colon or comma. */
  predicate Plain(s: string) {
    forall i | 0 <= i < |s| :: s[i] as int >= 0x20 && s[i] != '"' && s[i] != '\\' && s[i] != ':' && s[i] != ','
  }

  predicate NoQuote(s: string) {
    forall i | 0 <= i < |s| :: s[i] != '"'
  }

  function Needle(k: string): string {
    "\"" + k + "\""
  }

  /** Text without quotes is passed over. */
  lemma {:induction false} PassOver(a: string, rest: string, k: string)
    requires NoQuote(a)
    ensures After(a + rest, Needle(k)) == After(rest, Needle(k))
  {
    if a == [] {
      assert a + rest == rest;
    } else {
      var s := a + rest;
      assert s[1..] == a[1..] + rest;
      assert |s| >= |Needle(k)| ==> s[..|Needle(k)|][0] == s[0] && s[0] != '"' && Needle(k)[0] == '"';
      PassOver(a[1..], rest, k);
      if |s| < |Needle(k)| {
        AfterShort(rest, Needle(k));
      }
    }
  }

  lemma FirstGap(gap: string, rest: string, s: string)
    requires NoQuote(gap) && s == "\"" + gap + ("\"" + rest)
    ensures |s| >= |gap| + 2 && s[|gap| + 1] == '"' && gap == s[1..|gap| + 1]
    ensures forall i | 1 <= i <= |gap| :: s[i] != '"'
  {
    assert forall i | 1 <= i <= |gap| :: s[i] == gap[i - 1];
  }

  lemma GapIsKey(gap: string, rest: string, k: string, t: string)
    requires NoQuote(gap) && NoQuote(k)
    requires "\"" + gap + ("\"" + rest) == "\"" + k + ("\"" + t)
    ensures gap == k
  {
    var s := "\"" + gap + ("\"" + rest);
    FirstGap(gap, rest, s);
    FirstGap(k, t, s);
  }

  lemma KeyHits(k: string, rest: string)
    ensures var s := "\"" + k + ("\"" + rest); |s| >= |Needle(k)| && s[..|Needle(k)|] == Needle(k)
  {
  }

  /** Between two consecutive quotes the search matches exactly if the text there is the key. */
  lemma AtQuote(gap: string, rest: string, k: string)
    requires NoQuote(gap) && NoQuote(k)
    ensures After("\"" + gap + ("\"" + rest), Needle(k))
         == if gap == k then Some(rest) else After("\"" + rest, Needle(k))
  {
    var s := "\"" + gap + ("\"" + rest);
    var n := Needle(k);
    KeyHits(k, rest);
    if |s| >= |n| && s[..|n|] == n {
      assert s == n + s[|n|..] == "\"" + k + ("\"" + s[|n|..]);
      GapIsKey(gap, rest, k, s[|n|..]);
      assert s[|n|..] == rest;
    } else {
      assert s[1..] == gap + ("\"" + rest);
      PassOver(gap, "\"" + rest, k);
      if |s| < |n| {
        AfterShort("\"" + rest, n);
      }
    }
  }

  /** At the end no quote pair is left. */
  lemma AtLastQuote(rest: string, k: string)
    requires NoQuote(rest) && NoQuote(k)
    ensures After("\"" + rest, Needle(k)) == None
  {
    var s := "\"" + rest;
    var n := Needle(k);
    if |s| >= |n| {
      assert n[|n| - 1] == '"' && s[..|n|][|n| - 1] == s[|n| - 1] == rest[|n| - 2];
      assert s[1..] == rest + [];
      PassOver(rest, [], k);
    }
  }

  /** Index of the first double quote, or the length. */
  function QuoteIndex(v: string): (i: nat)
    ensures i <= |v| && (i < |v| ==> v[i] == '"') && NoQuote(v[..i])
  {
    if v == [] || v[0] == '"' then 0 else
    assert forall j | 0 < j <= |v| :: v[..j] == [v[0]] + v[1..][..j - 1];
    1 + QuoteIndex(v[1..])
  }

  /** The text of `v` after its last double quote; all of `v` if there is none. */
  function Tail(v: string): string {
    if QuoteIndex(v) == |v| then v else Tail(v[QuoteIndex(v) + 1..])
  }

  predicate Unescaped(s: string) {
    forall i | 0 <= i < |s| :: s[i] as int >= 0x20 && s[i] != '"' && s[i] != '\\'
  }

  lemma {:induction false} EscapeOfUnescaped(s: string)
    requires Unescaped(s)
    ensures Escape(s) == s
  {
    if s != [] {
      EscapeOfUnescaped(s[1..]);
      assert s == [s[0]] + s[1..];
    }
  }

  lemma EscapeCharFacts(c: char)
    ensures EscapeChar(c) != []
    ensures c != '"' ==> NoQuote(EscapeChar(c))
    ensures c as int < 0x20 || c == '\\' ==> EscapeChar(c)[0] == '\\'
  {
    if c as int < 0x20 {
      assert HexVal('"') == -1;
    }
  }

  lemma {:induction false} EscapeHasNoQuote(s: string)
    requires NoQuote(s)
    ensures NoQuote(Escape(s))
  {
    hide EscapeChar;
    if s != [] {
      EscapeHasNoQuote(s[1..]);
      EscapeCharFacts(s[0]);
    }
  }

  lemma {:induction false} EscapeShowsBackslash(s: string)
    requires NoQuote(s) && !Unescaped(s)
    ensures '\\' in Escape(s)
  {
    hide EscapeChar;
    EscapeCharFacts(s[0]);
    if s[0] as int < 0x20 || s[0] == '\\' {
      assert Escape(s)[0] == '\\';
    } else {
      assert s == [s[0]] + s[1..];
      EscapeShowsBackslash(s[1..]);
    }
  }

  lemma EscapeIsKey(v: string, k: string)
    requires NoQuote(v) && Plain(k)
    ensures Escape(v) == k <==> v == k
  {
    hide Escape;
    if Unescaped(v) {
      EscapeOfUnescaped(v);
    } else {
      EscapeShowsBackslash(v);
    }
  }

  lemma PlainIsQuoteFree(k: string)
    requires Plain(k)
    ensures NoQuote(k) && Escape(k) == k && k != ":" && k != ","
  {
    EscapeOfUnescaped(k);
    assert |k| > 0 ==> k[0] != ':' && k[0] != ',';
  }

  /** Across an escaped value the search stops only at a value whose tail is the key. */
  lemma {:induction false} PassValue(v: string, rest: string, k: string)
    requires Plain(k)
    ensures After("\"" + Escape(v) + ("\"" + rest), Needle(k))
         == if Tail(v) == k then Some(rest) else After("\"" + rest, Needle(k))
    decreases |v|
  {
    hide Escape, After, QuoteIndex;
    PlainIsQuoteFree(k);
    var i := QuoteIndex(v);
    if i == |v| {
      assert v[..i] == v;
      EscapeHasNoQuote(v);
      EscapeIsKey(v, k);
      AtQuote(Escape(v), rest, k);
    } else {
      var a, b := v[..i], v[i + 1..];
      var gap, rest' := Escape(a) + "\\", Escape(b) + ("\"" + rest);
      assert v == a + (['"'] + b);
      EscapeConcat(a, ['"'] + b);
      EscapeFirst('"', b);
      assert Escape(v) == Escape(a) + ("\\\"" + Escape(b));
      assert "\"" + Escape(v) + ("\"" + rest) == "\"" + gap + ("\"" + rest');
      EscapeHasNoQuote(a);
      assert NoQuote(gap) && gap[|gap| - 1] == '\\';
      AtQuote(gap, rest', k);
      assert "\"" + rest' == "\"" + Escape(b) + ("\"" + rest);
      PassValue(b, rest, k);
    }
  }

  /** Spaces and tabs. */
  predicate IsGap(s: string) {
    forall i | 0 <= i < |s| :: s[i] == ' ' || s[i] == '\t'
  }

  predicate PlainMembers(members: seq<Member>) {
    forall i | 0 <= i < |members| :: Plain(members[i].key) && IsGap(members[i].gap)
  }

  /** From the colon of the first member on. */
  function FromColon(members: seq<Member>): string
    requires members != []
  {
    ":" + members[0].gap + ("\"" + Escape(members[0].value) + ("\"" + (Members(members[1..], false) + "}")))
  }

  /** What follows the first match of the quoted key in the members. */
  function Landing(members: seq<Member>, k: string): Option<string> {
    if members == [] then None
    else if members[0].key == k then Some(FromColon(members))
    else if Tail(members[0].value) == k then Some(Members(members[1..], false) + "}")
    else Landing(members[1..], k)
  }

  lemma Assoc(a: string, b: string, c: string)
    ensures (a + b) + c == a + (b + c)
  {
  }

  /** A quoted text followed by more. */
  lemma QuotedThen(s: string, rest: string)
    ensures Quoted(s) + rest == "\"" + Escape(s) + ("\"" + rest)
  {
    hide Escape;
    Assoc("\"" + Escape(s), "\"", rest);
  }

  lemma MembersText(members: seq<Member>, first: bool)
    requires members != []
    ensures Members(members, first) + "}"
         == (if first then "" else ",") + ("\"" + Escape(members[0].key) + ("\"" + FromColon(members)))
  {
    hide Escape, Quoted;
    var sep := if first then "" else ",";
    var k, c, v, m := Quoted(members[0].key), ":" + members[0].gap, Quoted(members[0].value), Members(members[1..], false);
    assert Members(members, first) == sep + (k + c + v) + m;
    Assoc(sep + (k + c + v), m, "}");
    Assoc(sep, k + c + v, m + "}");
    Assoc(k + c, v, m + "}");
    Assoc(k, c, v + (m + "}"));
    QuotedThen(members[0].value, m + "}");
    QuotedThen(members[0].key, c + (v + (m + "}")));
  }

  lemma {:induction false} SearchLands(members: seq<Member>, first: bool, k: string)
    requires PlainMembers(members) && Plain(k)
    ensures After(Members(members, first) + "}", Needle(k)) == Landing(members, k)
  {
    hide Escape, After, Members, Tail, Plain, IsGap;
    PlainIsQuoteFree(k);
    if members == [] {
      NoMembersText(first);
      PassOver("}", [], k);
      assert "}" + [] == "}";
      AfterShort([], Needle(k));
    } else {
      var key, v, t := members[0].key, members[0].value, Members(members[1..], false) + "}";
      MembersText(members, first);
      PlainIsQuoteFree(key);
      var gap := ":" + members[0].gap;
      var value := "\"" + Escape(v) + ("\"" + t);
      GapIsNoKey(members[0], k);
      PassOver(if first then "" else ",", "\"" + key + ("\"" + FromColon(members)), k);
      AtQuote(key, FromColon(members), k);
      assert "\"" + FromColon(members) == "\"" + gap + ("\"" + (Escape(v) + ("\"" + t)));
      AtQuote(gap, Escape(v) + ("\"" + t), k);
      assert "\"" + (Escape(v) + ("\"" + t)) == value;
      PassValue(v, t, k);
      SearchLands(members[1..], false, k);
      BetweenMembers(members[1..], k);
    }
  }

  lemma GapIsNoKey(m: Member, k: string)
    requires Plain(k) && IsGap(m.gap)
    ensures NoQuote(":" + m.gap) && ":" + m.gap != k
  {
    assert (":" + m.gap)[0] == ':';
  }

  lemma NoMembersText(first: bool)
    ensures Members([], first) + "}" == "}"
  {
  }

  /** From the closing quote of a value the search goes on with the next member. */
  lemma BetweenMembers(members: seq<Member>, k: string)
    requires PlainMembers(members) && Plain(k)
    ensures After("\"" + (Members(members, false) + "}"), Needle(k)) == After(Members(members, false) + "}", Needle(k))
  {
    hide Escape, After, Members, Plain, FromColon;
    PlainIsQuoteFree(k);
    if members == [] {
      NoMembersText(false);
      AtLastQuote("}", k);
      PassOver("}", [], k);
      assert "}" + [] == "}";
      AfterShort([], Needle(k));
    } else {
      MembersText(members, false);
      PlainIsQuoteFree(members[0].key);
      var rest := members[0].key + ("\"" + FromColon(members));
      assert Members(members, false) + "}" == "," + ("\"" + rest);
      assert "\"" + ("," + ("\"" + rest)) == "\"" + "," + ("\"" + rest);
      AtQuote(",", rest, k);
      PassOver(",", "\"" + rest, k);
    }
  }

  // ----- what getString returns -----

  /** The value of the first member whose key is `k`; but an earlier member whose value ends, after its
      last quote, in exactly `k` diverts the search to the member that follows it. */
  function Lookup(members: seq<Member>, k: string): Option<string> {
    if members == [] then None
    else if members[0].key == k then Some(members[0].value)
    else if Tail(members[0].value) == k then (if |members| > 1 then Some(members[1].value) else None)
    else Lookup(members[1..], k)
  }

  lemma {:induction false} PassNoColon(a: string, rest: string)
    requires forall i | 0 <= i < |a| :: a[i] != ':'
    ensures After(a + rest, ":") == After(rest, ":")
  {
    if a == [] {
      assert a + rest == rest;
    } else {
      assert (a + rest)[1..] == a[1..] + rest;
      assert (a + rest)[..1] == [a[0]];
      PassNoColon(a[1..], rest);
    }
  }

  lemma {:induction false} SkipGap(gap: string, u: string)
    requires IsGap(gap) && (u != [] ==> u[0] != ' ' && u[0] != '\t')
    ensures SkipBlanks(gap + u) == u
  {
    if gap == [] {
      assert gap + u == u;
    } else {
      assert (gap + u)[1..] == gap[1..] + u;
      SkipGap(gap[1..], u);
    }
  }

  /** After the colon the reader skips the blanks and reads the value. */
  lemma ColonValue(members: seq<Member>)
    requires members != [] && IsGap(members[0].gap)
    ensures ReadValue(FromColon(members)) == Some(members[0].value)
  {
    hide Escape, ReadString, SkipBlanks, Members;
    var gap, v, t := members[0].gap, members[0].value, Members(members[1..], false) + "}";
    var u := "\"" + Escape(v) + ("\"" + t);
    var s := FromColon(members);
    assert s == ":" + (gap + u);
    assert s[..1] == ":" && s[1..] == gap + u;
    assert After(s, ":") == Some(gap + u);
    SkipGap(gap, u);
    assert u[1..] == Escape(v) + ("\"" + t);
    ReadEscaped(v, t);
  }

  /** After a colon and blanks, anything but a quote is no string, and nothing is returned. */
  lemma NotAString(gap: string, u: string)
    requires IsGap(gap) && (u != [] ==> u[0] != ' ' && u[0] != '\t' && u[0] != '"')
    ensures ReadValue(":" + (gap + u)) == None
  {
    hide ReadString, SkipBlanks;
    var s := ":" + (gap + u);
    assert s[..1] == ":" && s[1..] == gap + u;
    assert After(s, ":") == Some(gap + u);
    SkipGap(gap, u);
  }

  lemma ValueOfNextMember(members: seq<Member>)
    requires PlainMembers(members)
    ensures ReadValue(Members(members, false) + "}") == if members == [] then None else Some(members[0].value)
  {
    hide Escape, After, Members, ReadString, SkipBlanks, FromColon;
    if members == [] {
      NoMembersText(false);
      PassNoColon("}", []);
      assert "}" + [] == "}";
      AfterShort([], ":");
    } else {
      assert Plain(members[0].key) && IsGap(members[0].gap);
      MembersText(members, false);
      PlainIsQuoteFree(members[0].key);
      var lead := "," + "\"" + members[0].key + "\"";
      assert Members(members, false) + "}" == lead + FromColon(members);
      assert forall i | 0 <= i < |lead| :: lead[i] == ',' || lead[i] == '"' || lead[i] in members[0].key;
      PassNoColon(lead, FromColon(members));
      ColonValue(members);
    }
  }

  lemma {:induction false} LandingReads(members: seq<Member>, k: string)
    requires PlainMembers(members)
    ensures Lookup(members, k) == match Landing(members, k) { case None => None case Some(rest) => ReadValue(rest) }
  {
    hide Escape, ReadValue, Members, Tail, Plain, FromColon, IsGap;
    if members != [] {
      ColonValue(members);
      ValueOfNextMember(members[1..]);
      LandingReads(members[1..], k);
    }
  }

  /** For every object whose members have identifier-like keys, arbitrary values and any blanks after their
      colons, `getString` returns exactly what `Lookup` says. */
  lemma GetStringOfObject(members: seq<Member>, k: string)
    requires PlainMembers(members) && Plain(k)
    ensures GetText(ObjectText(members), k) == Lookup(members, k)
  {
    hide After, Members, ReadValue, Lookup, Landing, Plain;
    var m := Members(members, true) + "}";
    assert ObjectText(members) == "{" + m;
    PassOver("{", m, k);
    SearchLands(members, true, k);
    LandingReads(members, k);
  }

  /** In particular on what `build` produced, for every list of fields. */
  lemma GetStringOfBuild(fields: seq<Field>, k: string)
    requires PlainMembers(Present(fields)) && Plain(k)
    ensures GetText(BuildText(fields), k) == Lookup(Present(fields), k)
  {
    hide GetText, ObjectText, Lookup;
    GetStringOfObject(Present(fields), k);
  }

  /** Index of the first member that stops the search: by its key, or by the tail of its value. */
  function Stop(members: seq<Member>, k: string): (i: nat)
    ensures i <= |members|
  {
    if members == [] || members[0].key == k || Tail(members[0].value) == k then 0 else 1 + Stop(members[1..], k)
  }

  lemma {:induction false} LookupAtStop(members: seq<Member>, k: string)
    ensures var i := Stop(members, k);
      Lookup(members, k) == if i == |members| then None
                          else if members[i].key == k then Some(members[i].value)
                          else if i + 1 < |members| then Some(members[i + 1].value) else None
    ensures forall h | 0 <= h < Stop(members, k) :: members[h].key != k && Tail(members[h].value) != k
    ensures Stop(members, k) < |members| ==> members[Stop(members, k)].key == k || Tail(members[Stop(members, k)].value) == k
  {
    hide Tail;
    if members != [] && members[0].key != k && Tail(members[0].value) != k {
      LookupAtStop(members[1..], k);
    }
  }

  /** Reading back the value of the first member named `k` succeeds exactly when no earlier value ends in
      `k` after its last quote, or the one that does is followed by a member with the same value. */
  lemma {:induction false} GetStringIsRight(members: seq<Member>, k: string, j: nat)
    requires PlainMembers(members) && Plain(k)
    requires j < |members| && members[j].key == k
    requires forall h | 0 <= h < j :: members[h].key != k
    ensures var i := Stop(members, k);
      && i <= j
      && (i == j <==> forall h | 0 <= h < j :: Tail(members[h].value) != k)
      && (GetText(ObjectText(members), k) == Some(members[j].value) <==> i == j || members[i + 1].value == members[j].value)
  {
    hide Tail, Lookup, GetText, ObjectText;
    GetStringOfObject(members, k);
    LookupAtStop(members, k);
  }

  /** The value "k" of the first member passes for the key: the second member is read instead of the third. */
  lemma GetStringMisreads()
    ensures GetText(BuildText([("a", Some("k")), ("b", Some("x")), ("k", Some("v"))]), "k") == Some("x")
  {
    hide GetText, BuildText;
    var fields := [("a", Some("k")), ("b", Some("x")), ("k", Some("v"))];
    var members := [Member("a", "", "k"), Member("b", "", "x"), Member("k", "", "v")];
    assert Present(fields[2..]) == members[2..];
    assert Present(fields[1..]) == members[1..];
    assert Present(fields) == members;
    GetStringOfBuild(fields, "k");
    assert Tail("k") == "k";
  }
}
