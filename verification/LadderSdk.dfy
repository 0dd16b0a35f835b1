/** The SDK encoder: placements travel as one comma-separated string, which `computeStructHash`
    splits, trims, parses and pads again. */
module LadderSdk {
  import opened Bytes
  import opened Numbers
  import opened Hex
  import opened Results
  import opened StringMap
  import opened Eip712

  // ----- std::getline(iss, addr, ',') -----

  /** Index of the first comma, or the length. */
  function CommaIndex(s: string): (i: nat)
    ensures i <= |s| && (i < |s| ==> s[i] == ',') && forall k | 0 <= k < i :: s[k] != ','
  {
    if s == [] || s[0] == ',' then 0 else 1 + CommaIndex(s[1..])
  }

  /** What the stream still holds after one `getline`: the comma is consumed. */
  function AfterLine(s: string): (r: string)
    ensures s != [] ==> |r| < |s|
  {
    if CommaIndex(s) < |s| then s[CommaIndex(s) + 1..] else []
  }

  /** The lines a stream yields: `getline` fails once nothing is left. */
  function Lines(s: string): seq<string>
    decreases |s|
  {
    if s == [] then [] else [s[..CommaIndex(s)]] + Lines(AfterLine(s))
  }

  function Join(parts: seq<string>): string {
    if parts == [] then ""
    else if |parts| == 1 then parts[0]
    else parts[0] + "," + Join(parts[1..])
  }

  predicate CommaFree(s: string) {
    forall i | 0 <= i < |s| :: s[i] != ','
  }

  predicate Splittable(parts: seq<string>) {
    && (forall k | 0 <= k < |parts| :: CommaFree(parts[k]))
    && (parts != [] ==> parts[|parts| - 1] != [])
  }

  lemma LineOfPrefix(a: string, rest: string)
    requires CommaFree(a)
    ensures CommaIndex(a + "," + rest) == |a|
    ensures AfterLine(a + "," + rest) == rest
  {
    var s := a + "," + rest;
    var i := CommaIndex(s);
    assert s[|a|] == ',';
    assert forall k | 0 <= k < |a| :: s[k] == a[k];
    assert s[|a| + 1..] == rest;
  }

  lemma LastLine(a: string)
    requires CommaFree(a) && a != []
    ensures Lines(a) == [a]
  {
    assert CommaIndex(a) == |a|;
    assert a[..|a|] == a;
  }

  lemma {:induction false} LinesOfJoin(parts: seq<string>)
    requires Splittable(parts)
    ensures Lines(Join(parts)) == parts
  {
    hide CommaIndex, AfterLine;
    if parts == [] {
    } else if |parts| == 1 {
      LastLine(parts[0]);
    } else {
      assert CommaFree(parts[0]);
      LineOfPrefix(parts[0], Join(parts[1..]));
      LinesOfJoin(parts[1..]);
      var s := Join(parts);
      assert s[..|parts[0]|] == parts[0];
      assert parts == [parts[0]] + parts[1..];
    }
  }

  lemma {:induction false} LinesAreSplittable(s: string)
    ensures forall k | 0 <= k < |Lines(s)| :: CommaFree(Lines(s)[k])
    decreases |s|
  {
    if s != [] {
      LinesAreSplittable(AfterLine(s));
    }
  }

  lemma {:induction false} NoEmptyTail(parts: seq<string>)
    requires Lines(Join(parts)) == parts && parts != []
    ensures parts[|parts| - 1] != []
  {
    LinesAreSplittable(Join(parts));
    if |parts| > 1 {
      assert CommaFree(parts[0]);
      LineOfPrefix(parts[0], Join(parts[1..]));
      var s := Join(parts);
      assert Lines(s) == [s[..CommaIndex(s)]] + Lines(Join(parts[1..]));
      assert Lines(s)[1..] == Lines(Join(parts[1..]));
      NoEmptyTail(parts[1..]);
    }
  }

  /** Joining and splitting gives the list back exactly when no part contains a comma and the
      last part is not empty. */
  lemma SplitOfJoin(parts: seq<string>)
    ensures Lines(Join(parts)) == parts <==> Splittable(parts)
  {
    if Splittable(parts) {
      LinesOfJoin(parts);
    }
    if Lines(Join(parts)) == parts {
      LinesAreSplittable(Join(parts));
      if parts != [] {
        NoEmptyTail(parts);
      }
    }
  }

  // ----- trimming -----

  predicate IsBlank(c: char) {
    c == ' ' || c == '\t'
  }

  function TrimLeft(s: string): string {
    if s != [] && IsBlank(s[0]) then TrimLeft(s[1..]) else s
  }

  function TrimRight(s: string): string {
    if s != [] && IsBlank(s[|s| - 1]) then TrimRight(s[..|s| - 1]) else s
  }

  /** `erase` up to the first and after the last character that is neither space nor tab. */
  function Trim(s: string): string {
    TrimRight(TrimLeft(s))
  }

  lemma {:induction false} TrimLeftOf(a: string, s: string)
    requires (forall i | 0 <= i < |a| :: a[i] in " \t") && (s != [] ==> s[0] !in " \t")
    ensures TrimLeft(a + s) == s
  {
    if a == [] {
      assert a + s == s;
    } else {
      assert (a + s)[1..] == a[1..] + s;
      TrimLeftOf(a[1..], s);
    }
  }

  lemma {:induction false} TrimRightOf(s: string, b: string)
    requires (forall i | 0 <= i < |b| :: b[i] in " \t") && (s != [] ==> s[|s| - 1] !in " \t")
    ensures TrimRight(s + b) == s
  {
    if b == [] {
      assert s + b == s;
    } else {
      assert (s + b)[..|s + b| - 1] == s + b[..|b| - 1];
      TrimRightOf(s, b[..|b| - 1]);
    }
  }

  /** Trimming removes the spaces and tabs at both ends and nothing else. */
  lemma TrimIs(a: string, s: string, b: string)
    requires (forall i | 0 <= i < |a| :: a[i] in " \t") && (forall i | 0 <= i < |b| :: b[i] in " \t")
    requires s != [] ==> s[0] !in " \t" && s[|s| - 1] !in " \t"
    ensures Trim(a + (s + b)) == s
  {
    hide TrimLeft, TrimRight;
    if s == [] {
      assert a + (s + b) == (a + b) + [];
      TrimLeftOf(a + b, []);
      TrimRightOf([], []);
      assert s + s == s;
    } else {
      TrimLeftOf(a, s + b);
      TrimRightOf(s, b);
    }
  }

  // ----- computeStructHash -----

  /** The array bytes of one list of address texts, or the exception of the first that throws. */
  function ArrayBytes(parts: seq<string>): Outcome<seq<byte>> {
    if parts == [] then Returned([]) else
    var front := ArrayBytes(parts[..|parts| - 1]);
    var last := SdkDecode(Trim(parts[|parts| - 1]));
    if front.Thrown? || last.Thrown? then Thrown else Returned(front.value + PadLeft32(last.value))
  }

  lemma LinesStep(s: string)
    requires s != []
    ensures Lines(s) == [s[..CommaIndex(s)]] + Lines(AfterLine(s))
  {
  }

  lemma ArrayBytesStep(parts: seq<string>, x: string)
    requires ArrayBytes(parts).Returned?
    ensures ArrayBytes(parts + [x])
         == if SdkDecode(Trim(x)).Thrown? then Thrown
            else Returned(ArrayBytes(parts).value + PadLeft32(SdkDecode(Trim(x)).value))
  {
    assert (parts + [x])[..|parts|] == parts;
  }

  method EncodeAddressArray(value: string) returns (r: Outcome<seq<byte>>)
    ensures r == ArrayBytes(Lines(value))
  {
    hide SdkDecode, Trim, PadLeft32, CommaIndex, Lines, ArrayBytes, AfterLine;
    var concat: seq<byte> := [];
    var iss := value;
    ghost var done: seq<string> := [];
    NoLines();
    while iss != []
      invariant done + Lines(iss) == Lines(value)
      invariant ArrayBytes(done) == Returned(concat)
      decreases |iss|
    {
      var addr := iss[..CommaIndex(iss)];
      LinesStep(iss);
      ArrayBytesStep(done, addr);
      iss := AfterLine(iss);
      assert done + ([addr] + Lines(iss)) == (done + [addr]) + Lines(iss);
      done := done + [addr];
      addr := Trim(addr);
      var bytes := SdkFromHex(addr);
      if bytes.Thrown? {
        ThrowsAtPrefix(done, Lines(iss));
        return Thrown;
      }
      concat := concat + PadLeft32(bytes.value);
    }
    NoLines();
    assert done == Lines(value);
    return Returned(concat);
  }

  lemma NoLines()
    ensures Lines([]) == [] && ArrayBytes([]) == Returned([])
  {
  }

  lemma {:induction false} ThrowsAtPrefix(a: seq<string>, b: seq<string>)
    requires ArrayBytes(a).Thrown?
    ensures ArrayBytes(a + b).Thrown?
  {
    if b == [] {
      assert a + b == a;
    } else {
      ThrowsAtPrefix(a, b[..|b| - 1]);
      assert (a + b)[..|a + b| - 1] == a + b[..|b| - 1];
    }
  }

  function EncodeFieldValue(h: Hash, field: Field, value: string): Outcome<Digest> {
    if field.typ == "string" then Returned(h(Raw(value)))
    else if field.typ == "bytes32" then
      var b := SdkDecode(value);
      if b.Thrown? then Thrown else Returned(SdkPadRight32(b.value))
    else if field.typ == "uint256" || field.typ == "uint" then Returned(Word32(UintOrZero(value)))
    else if field.typ == "address" then
      var b := SdkDecode(value);
      if b.Thrown? then Thrown else Returned(PadLeft32(b.value))
    else Returned(Zeros(32))
  }

  /** The word of a field that is no array, if its value can be decoded, means what its type says. */
  lemma FieldWordIs(h: Hash, field: Field, value: string)
    requires (field.typ == "bytes32" || field.typ == "address") ==> IsHexString(value) && |value| <= 66
    ensures EncodeFieldValue(h, field, value).Returned?
    ensures IsFieldWord(h, field.typ, value, EncodeFieldValue(h, field, value).value)
  {
    hide Raw, SdkDecode, SdkPadRight32, PadLeft32, Word32, BigEndianValue, HexBytes, IsHexString, UintOrZero, Zeros;
    if field.typ == "bytes32" || field.typ == "address" {
      SdkDecodesHex(value);
      PadRight32Layout(HexBytes(value));
      PadLeft32Value(HexBytes(value));
    }
    UintWord(value);
    ZerosAreZero(32);
  }

  function EncodeField(h: Hash, field: Field, message: StringMap): Outcome<Digest> {
    var value := GetOrEmpty(message, field.name);
    if field.typ == "address[]" then
      var b := ArrayBytes(Lines(value));
      if b.Thrown? then Thrown else Returned(h(b.value))
    else EncodeFieldValue(h, field, value)
  }

  /** The bytes after the type hash, field by field. */
  function EncodeData(h: Hash, fields: seq<Field>, message: StringMap): Outcome<seq<byte>> {
    if fields == [] then Returned([]) else
    var front := EncodeData(h, fields[..|fields| - 1], message);
    var last := EncodeField(h, fields[|fields| - 1], message);
    if front.Thrown? || last.Thrown? then Thrown else Returned(front.value + last.value)
  }

  function SdkStructPreimage(h: Hash, data: TypedData): Outcome<seq<byte>> {
    if data.primaryType !in data.types then Thrown else
    var fields := data.types[data.primaryType];
    var d := EncodeData(h, fields, data.message);
    if d.Thrown? then Thrown else Returned(h(Raw(TypeString(data.primaryType, fields))) + d.value)
  }

  method BuildTypeString(primary: string, fields: seq<Field>) returns (typeString: string)
    ensures typeString == TypeString(primary, fields)
  {
    typeString := primary + "(";
    for i := 0 to |fields|
      invariant typeString == primary + "(" + FieldList(fields[..i])
    {
      assert fields[..i + 1][..i] == fields[..i];
      if i > 0 {
        typeString := typeString + ",";
      }
      typeString := typeString + fields[i].typ + " " + fields[i].name;
    }
    assert fields[..|fields|] == fields;
    typeString := typeString + ")";
  }

  method EncodeOneField(h: Hash, field: Field, message: StringMap) returns (r: Outcome<Digest>)
    ensures r == EncodeField(h, field, message)
  {
    hide SdkDecode, ArrayBytes, Lines, PadLeft32, SdkPadRight32, Word32;
    var value := GetOrEmpty(message, field.name);
    if field.typ == "address[]" {
      var b := EncodeAddressArray(value);
      return if b.Thrown? then Thrown else Returned(h(b.value));
    } else if field.typ == "string" {
      return Returned(h(Raw(value)));
    } else if field.typ == "bytes32" {
      var b := SdkFromHex(value);
      return if b.Thrown? then Thrown else Returned(SdkPadRight32(b.value));
    } else if field.typ == "uint256" || field.typ == "uint" {
      var v := ParseOrZero(value);
      var word := ToWord32(v);
      return Returned(word[..]);
    } else if field.typ == "address" {
      var b := SdkFromHex(value);
      return if b.Thrown? then Thrown else Returned(PadLeft32(b.value));
    }
    return Returned(Zeros(32));
  }

  method ComputeStructHash(h: Hash, data: TypedData) returns (r: Outcome<Digest>)
    ensures SdkStructPreimage(h, data).Thrown? ==> r == Thrown
    ensures SdkStructPreimage(h, data).Returned? ==> r == Returned(h(SdkStructPreimage(h, data).value))
  {
    hide EncodeField, TypeString, Raw;
    if data.primaryType !in data.types {
      return Thrown;
    }
    var fields := data.types[data.primaryType];
    var typeString := BuildTypeString(data.primaryType, fields);
    var typeHash := h(Raw(typeString));
    var input: seq<byte> := typeHash;
    for i := 0 to |fields|
      invariant EncodeData(h, fields[..i], data.message).Returned?
      invariant input == typeHash + EncodeData(h, fields[..i], data.message).value
    {
      assert fields[..i + 1][..i] == fields[..i];
      var encoded := EncodeOneField(h, fields[i], data.message);
      if encoded.Thrown? {
        DataThrowsAtPrefix(h, fields[..i + 1], fields[i + 1..], data.message);
        assert fields[..i + 1] + fields[i + 1..] == fields;
        return Thrown;
      }
      input := input + encoded.value;
    }
    assert fields[..|fields|] == fields;
    return Returned(h(input));
  }

  lemma {:induction false} DataThrowsAtPrefix(h: Hash, a: seq<Field>, b: seq<Field>, message: StringMap)
    requires EncodeData(h, a, message).Thrown?
    ensures EncodeData(h, a + b, message).Thrown?
  {
    if b == [] {
      assert a + b == a;
    } else {
      DataThrowsAtPrefix(h, a, b[..|b| - 1], message);
      assert (a + b)[..|a + b| - 1] == a + b[..|b| - 1];
    }
  }

  // ----- computeEip712Digest -----

  function SdkDomainPreimage(h: Hash, data: TypedData): Outcome<seq<byte>> {
    var contract := SdkDecode(data.verifyingContract);
    if contract.Thrown? then Thrown
    else Returned(DomainPreimage(h, data.name, data.version, data.chainId, contract.value))
  }

  function SdkDigestPreimage(h: Hash, data: TypedData): Outcome<seq<byte>> {
    var domain := SdkDomainPreimage(h, data);
    var struct := SdkStructPreimage(h, data);
    if domain.Thrown? || struct.Thrown? then Thrown
    else Returned(DigestPreimage(h(domain.value), h(struct.value)))
  }

  function SdkDigest(h: Hash, data: TypedData): Outcome<Digest> {
    var p := SdkDigestPreimage(h, data);
    if p.Thrown? then Thrown else Returned(h(p.value))
  }

  // ----- buildLadderTypedData -----

  function SdkMessage(i: LadderInput): StringMap {
    Put(Put(Put(Put(Put([], "matchId", i.matchId), "gameId", i.gameId),
                "rankedPlacements", Join(i.rankedPlacements)),
            "transcriptHash", i.transcriptHash),
        "sessionNonce", Dec(i.sessionNonce))
  }

  function SdkLadder(i: LadderInput): TypedData {
    TypedData("AMPMultiplayer", "1", i.chainId, i.contractAddress, LadderTypeName(),
              map[LadderTypeName() := LadderFields()], SdkMessage(i))
  }

  lemma {:induction false} JoinMore(parts: seq<string>, x: string)
    ensures Join(parts + [x]) == if parts == [] then x else Join(parts) + "," + x
  {
    if |parts| > 1 {
      JoinMore(parts[1..], x);
      assert (parts + [x])[1..] == parts[1..] + [x];
      assert parts[0] + "," + (Join(parts[1..]) + "," + x) == parts[0] + "," + Join(parts[1..]) + "," + x;
    } else if |parts| == 1 {
      assert (parts + [x])[1..] == [x];
    }
  }

  method BuildLadderTypedData(i: LadderInput) returns (data: TypedData)
    ensures data == SdkLadder(i)
  {
    var rankedStr := "";
    assert Join(i.rankedPlacements[..0]) == rankedStr;
    hide Join, Put, Dec, LadderTypeName, LadderFields;
    for k := 0 to |i.rankedPlacements|
      invariant rankedStr == Join(i.rankedPlacements[..k])
    {
      JoinMore(i.rankedPlacements[..k], i.rankedPlacements[k]);
      assert i.rankedPlacements[..k] + [i.rankedPlacements[k]] == i.rankedPlacements[..k + 1];
      if k > 0 {
        rankedStr := rankedStr + ",";
      }
      rankedStr := rankedStr + i.rankedPlacements[k];
    }
    assert i.rankedPlacements[..|i.rankedPlacements|] == i.rankedPlacements;
    var message := Put([], "matchId", i.matchId);
    message := Put(message, "gameId", i.gameId);
    message := Put(message, "rankedPlacements", rankedStr);
    message := Put(message, "transcriptHash", i.transcriptHash);
    message := Put(message, "sessionNonce", Dec(i.sessionNonce));
    data := TypedData("AMPMultiplayer", "1", i.chainId, i.contractAddress, LadderTypeName(),
                      map[LadderTypeName() := LadderFields()], message);
  }

  // ----- the SDK path is the reference encoding -----

  /** The array encoding of any address texts that survive the joining: every text trimmed, decoded and padded. */
  lemma ArrayEncodingSurvivesJoin(parts: seq<string>)
    requires Splittable(parts)
    ensures ArrayBytes(Lines(Join(parts))) == ArrayBytes(parts)
  {
    LinesOfJoin(parts);
  }

  lemma HexStringIsPlain(h: string)
    requires IsHexString(h)
    ensures forall i | 0 <= i < |h| :: h[i] != ',' && !IsBlank(h[i])
  {
    forall i | 0 <= i < |h|
      ensures h[i] != ',' && !IsBlank(h[i])
    {
      if i >= 2 {
        assert h[2..][i - 2] == h[i];
      } else {
        assert h[i] == h[..2][i];
      }
    }
  }

  lemma TrimOfHex(h: string)
    requires IsHexString(h)
    ensures Trim(h) == h
  {
    HexStringIsPlain(h);
  }

  lemma {:induction false} ArrayBytesOfAddresses(parts: seq<string>)
    requires WellFormedAddresses(parts)
    ensures ArrayBytes(parts) == Returned(ArrayPreimage(Addresses(parts)))
  {
    hide PadLeft32, Trim, SdkDecode;
    if parts != [] {
      var m := |parts| - 1;
      ArrayBytesOfAddresses(parts[..m]);
      assert Addresses(parts)[..m] == Addresses(parts[..m]);
      TrimOfHex(parts[m]);
      SdkDecodesHex(parts[m]);
    }
  }

  lemma AddressesAreSplittable(parts: seq<string>)
    requires WellFormedAddresses(parts)
    ensures Splittable(parts)
  {
    forall k | 0 <= k < |parts|
      ensures CommaFree(parts[k])
    {
      HexStringIsPlain(parts[k]);
    }
  }

  /** Join, split, trim, parse and pad yield EIP-712's encoding of the original address list. */
  lemma ArrayIsReference(i: LadderInput)
    requires WellFormed(i)
    ensures ArrayBytes(Lines(Join(i.rankedPlacements))) == Returned(ArrayPreimage(Addresses(i.rankedPlacements)))
  {
    hide Lines, Join, ArrayBytes, ArrayPreimage;
    AddressesAreSplittable(i.rankedPlacements);
    ArrayEncodingSurvivesJoin(i.rankedPlacements);
    ArrayBytesOfAddresses(i.rankedPlacements);
  }

  lemma FindInMessage(i: LadderInput, q: string)
    ensures Find(SdkMessage(i), q)
         == if q == "sessionNonce" then Some(Dec(i.sessionNonce))
            else if q == "transcriptHash" then Some(i.transcriptHash)
            else if q == "rankedPlacements" then Some(Join(i.rankedPlacements))
            else if q == "gameId" then Some(i.gameId)
            else if q == "matchId" then Some(i.matchId) else None
  {
    hide Put, Join, Dec;
    var m1 := Put([], "matchId", i.matchId);
    var m2 := Put(m1, "gameId", i.gameId);
    var m3 := Put(m2, "rankedPlacements", Join(i.rankedPlacements));
    var m4 := Put(m3, "transcriptHash", i.transcriptHash);
    FindAfterPut([], "matchId", i.matchId, q);
    FindAfterPut(m1, "gameId", i.gameId, q);
    FindAfterPut(m2, "rankedPlacements", Join(i.rankedPlacements), q);
    FindAfterPut(m3, "transcriptHash", i.transcriptHash, q);
    FindAfterPut(m4, "sessionNonce", Dec(i.sessionNonce), q);
  }

  lemma MessageFields(i: LadderInput)
    ensures var m := SdkMessage(i);
      && GetOrEmpty(m, "matchId") == i.matchId
      && GetOrEmpty(m, "gameId") == i.gameId
      && GetOrEmpty(m, "rankedPlacements") == Join(i.rankedPlacements)
      && GetOrEmpty(m, "transcriptHash") == i.transcriptHash
      && GetOrEmpty(m, "sessionNonce") == Dec(i.sessionNonce)
  {
    hide SdkMessage, Find, Join, Dec;
    assert |"matchId"| == 7 && |"gameId"| == 6 && |"rankedPlacements"| == 16;
    assert |"transcriptHash"| == 14 && |"sessionNonce"| == 12;
    FindInMessage(i, "matchId");
    FindInMessage(i, "gameId");
    FindInMessage(i, "rankedPlacements");
    FindInMessage(i, "transcriptHash");
    FindInMessage(i, "sessionNonce");
  }

  lemma EncodedBytes32(h: Hash, name: string, text: string, message: StringMap)
    requires IsHexString(text) && |text| == 66 && GetOrEmpty(message, name) == text
    ensures EncodeField(h, Field(name, "bytes32"), message) == Returned(HexBytes(text))
  {
    SdkDecodesHex(text);
    assert HexBytes(text) + Zeros(0) == HexBytes(text);
  }

  lemma EncodedNonce(h: Hash, message: StringMap, nonce: nat)
    requires nonce <= U64_MAX && GetOrEmpty(message, "sessionNonce") == Dec(nonce)
    ensures EncodeField(h, Field("sessionNonce", "uint256"), message) == Returned(Word32(nonce))
  {
    DecIsUint64(nonce);
  }

  lemma EncodeDataStep(h: Hash, fields: seq<Field>, field: Field, message: StringMap, a: seq<byte>, b: Digest)
    requires EncodeData(h, fields, message) == Returned(a) && EncodeField(h, field, message) == Returned(b)
    ensures EncodeData(h, fields + [field], message) == Returned(a + b)
  {
    assert (fields + [field])[..|fields|] == fields;
  }

  lemma FiveFields(h: Hash, message: StringMap, f: seq<Field>, a: Digest, b: Digest, c: Digest, d: Digest, e: Digest)
    requires |f| == 5
    requires EncodeField(h, f[0], message) == Returned(a) && EncodeField(h, f[1], message) == Returned(b)
    requires EncodeField(h, f[2], message) == Returned(c) && EncodeField(h, f[3], message) == Returned(d)
    requires EncodeField(h, f[4], message) == Returned(e)
    ensures EncodeData(h, f, message) == Returned(a + b + c + d + e)
  {
    hide EncodeField;
    assert EncodeData(h, [], message) == Returned([]);
    EncodeDataStep(h, [], f[0], message, [], a);
    assert [] + [f[0]] == f[..1] && [] + a == a;
    EncodeDataStep(h, f[..1], f[1], message, a, b);
    assert f[..1] + [f[1]] == f[..2];
    EncodeDataStep(h, f[..2], f[2], message, a + b, c);
    assert f[..2] + [f[2]] == f[..3];
    EncodeDataStep(h, f[..3], f[3], message, a + b + c, d);
    assert f[..3] + [f[3]] == f[..4];
    EncodeDataStep(h, f[..4], f[4], message, a + b + c + d, e);
    assert f[..4] + [f[4]] == f;
  }

  /** The bytes `computeStructHash` hashes are typeHash || encodeData of the denoted ladder. */
  lemma StructPreimageIsReference(h: Hash, i: LadderInput)
    requires WellFormed(i)
    ensures SdkStructPreimage(h, SdkLadder(i)) == Returned(StructPreimage(h, Denotes(i)))
  {
    hide EncodeField, EncodeData, SdkMessage, Raw, TypeString, LadderTypeString, ArrayPreimage, Word32, HexBytes;
    var m, l := SdkMessage(i), Denotes(i);
    MessageFields(i);
    EncodedBytes32(h, "matchId", i.matchId, m);
    EncodedBytes32(h, "gameId", i.gameId, m);
    EncodedArray(h, i);
    EncodedBytes32(h, "transcriptHash", i.transcriptHash, m);
    EncodedNonce(h, m, i.sessionNonce);
    FiveFields(h, m, LadderFields(), l.matchId, l.gameId, h(ArrayPreimage(l.ranked)), l.transcript, Word32(l.nonce));
    LadderTypeStringBuilt();
    var t: seq<byte> := h(Raw(LadderTypeString()));
    SixParts(t, l.matchId, l.gameId, h(ArrayPreimage(l.ranked)), l.transcript, Word32(l.nonce));
  }

  lemma SixParts(t: seq<byte>, a: seq<byte>, b: seq<byte>, c: seq<byte>, d: seq<byte>, e: seq<byte>)
    ensures t + (a + b + c + d + e) == t + a + b + c + d + e
  {
  }

  /** The SDK's digest of a well-formed ladder is the EIP-712 digest of the values it denotes. */
  lemma SdkIsReference(h: Hash, i: LadderInput)
    requires WellFormed(i)
    ensures SdkDigestPreimage(h, SdkLadder(i)) == Returned(LadderPreimage(h, Denotes(i)))
    ensures SdkDigest(h, SdkLadder(i)) == Returned(LadderDigest(h, Denotes(i)))
  {
    hide SdkStructPreimage, StructPreimage, SdkDecode, HexBytes, PadLeft32, DomainTypeString, Raw, Word32;
    StructPreimageIsReference(h, i);
    SdkDecodesHex(i.contractAddress);
  }

  lemma SmallNumbers(i: LadderInput)
    requires WellFormed(i)
    ensures Denotes(i).chainId <= U64_MAX && Denotes(i).nonce <= U64_MAX
  {
    hide HexBytes, IsHexString;
  }

  /** Equal SDK digests of well-formed inputs: every field and the ranked order agree up to the letter
      case of the hexadecimal digits, or a nested hash call is an explicit collision. */
  lemma SdkDigestBinds(h: Hash, i: LadderInput, j: LadderInput)
    requires WellFormed(i) && WellFormed(j)
    requires SdkDigest(h, SdkLadder(i)) == SdkDigest(h, SdkLadder(j))
    ensures SameUpToCase(i, j) || NestedCollision(h, Denotes(i), Denotes(j))
  {
    hide SdkDigest, SdkLadder, NestedCollision, LadderDigest, WellFormed, Denotes, SameUpToCase;
    SmallNumbers(i);
    SmallNumbers(j);
    SdkIsReference(h, i);
    SdkIsReference(h, j);
    LadderDigestBinds(h, Denotes(i), Denotes(j));
    if Denotes(i) == Denotes(j) {
      DenotesUpToCase(i, j);
    }
  }

  ghost predicate SameUpToCase(i: LadderInput, j: LadderInput) {
    && i.chainId == j.chainId && i.sessionNonce == j.sessionNonce
    && Lower(i.contractAddress) == Lower(j.contractAddress)
    && Lower(i.matchId) == Lower(j.matchId) && Lower(i.gameId) == Lower(j.gameId)
    && Lower(i.transcriptHash) == Lower(j.transcriptHash)
    && |i.rankedPlacements| == |j.rankedPlacements|
    && forall k | 0 <= k < |i.rankedPlacements| :: Lower(i.rankedPlacements[k]) == Lower(j.rankedPlacements[k])
  }

  lemma DenotesUpToCase(i: LadderInput, j: LadderInput)
    requires WellFormed(i) && WellFormed(j) && Denotes(i) == Denotes(j)
    ensures SameUpToCase(i, j)
  {
    hide HexBytes, Lower, IsHexString;
    SameBytes(i.contractAddress, j.contractAddress);
    SameBytes(i.matchId, j.matchId);
    SameBytes(i.gameId, j.gameId);
    SameBytes(i.transcriptHash, j.transcriptHash);
    assert |Addresses(i.rankedPlacements)| == |Addresses(j.rankedPlacements)|;
    forall k | 0 <= k < |i.rankedPlacements|
      ensures Lower(i.rankedPlacements[k]) == Lower(j.rankedPlacements[k])
    {
      assert Addresses(i.rankedPlacements)[k] == Addresses(j.rankedPlacements)[k];
      SameBytes(i.rankedPlacements[k], j.rankedPlacements[k]);
    }
  }

  lemma EncodedArray(h: Hash, i: LadderInput)
    requires WellFormed(i)
    ensures EncodeField(h, Field("rankedPlacements", "address[]"), SdkMessage(i))
         == Returned(h(ArrayPreimage(Addresses(i.rankedPlacements))))
  {
    hide SdkMessage, Lines, Join, ArrayBytes, ArrayPreimage;
    MessageFields(i);
    ArrayIsReference(i);
  }
}
