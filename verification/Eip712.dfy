/** EIP-712 typed data: the structures both implementations share, and a reference encoder for the
    MultiplayerLadder struct written on typed values, straight from the standard. */
module Eip712 {
  import opened Bytes
  import opened Numbers
  import opened Hex
  import opened Results
  import opened StringMap
  import opened Messages

  datatype Field = Field(name: string, typ: string)

  datatype TypedData = TypedData(
    name: string, version: string, chainId: nat, verifyingContract: string,
    primaryType: string, types: map<string, seq<Field>>, message: StringMap)

  /** The arguments of `buildLadderTypedData`. */
  datatype LadderInput = LadderInput(
    chainId: nat, contractAddress: string, matchId: string, gameId: string,
    rankedPlacements: seq<string>, transcriptHash: string, sessionNonce: nat)

  function LadderTypeName(): string {
    "MultiplayerLadder"
  }

  function LadderFields(): seq<Field> {
    [Field("matchId", "bytes32"), Field("gameId", "bytes32"), Field("rankedPlacements", "address[]"),
     Field("transcriptHash", "bytes32"), Field("sessionNonce", "uint256")]
  }

  // ----- pieces both implementations share -----

  /** `Type(fieldType fieldName,...)`. */
  function TypeString(primary: string, fields: seq<Field>): string {
    primary + "(" + FieldList(fields) + ")"
  }

  function FieldList(fields: seq<Field>): string {
    if fields == [] then ""
    else if |fields| == 1 then fields[0].typ + " " + fields[0].name
    else FieldList(fields[..|fields| - 1]) + "," + fields[|fields| - 1].typ + " " + fields[|fields| - 1].name
  }

  function Zeros(n: nat): (b: seq<byte>)
    ensures |b| == n
  {
    seq(n, i => 0)
  }

  function PadLeft32(b: seq<byte>): Digest {
    if |b| <= 32 then Zeros(32 - |b|) + b else Zeros(32)
  }

  /** The SDK zeroes an over-long value; AmpCore keeps its first 32 bytes. */
  function SdkPadRight32(b: seq<byte>): Digest {
    if |b| <= 32 then b + Zeros(32 - |b|) else Zeros(32)
  }

  function CorePadRight32(b: seq<byte>): Digest {
    if |b| <= 32 then b + Zeros(32 - |b|) else b[..32]
  }

  function UintOrZero(value: string): nat {
    if IsUint64(value) then
      DecValueExtends(value, 0);
      DecValue(value)
    else 0
  }

  function DomainTypeString(): string {
    "EIP712Domain" + "(" + "string name" + "," + "string version" + "," + "uint256 chainId" + ","
    + "address verifyingContract" + ")"
  }

  /** The five words hashed into the domain separator. */
  function DomainPreimage(h: Hash, name: string, version: string, chainId: nat, contract: seq<byte>): seq<byte> {
    h(Raw(DomainTypeString())) + h(Raw(name)) + h(Raw(version)) + Word32(chainId) + PadLeft32(contract)
  }

  function DigestPreimage(domainSeparator: Digest, structHash: Digest): seq<byte> {
    [0x19, 0x01] + domainSeparator + structHash
  }

  // ----- reference encoder -----

  type Address = a: seq<byte> | |a| == 20 witness seq(20, i => 0)

  datatype Ladder = Ladder(
    chainId: nat, contract: Address, matchId: Digest, gameId: Digest,
    ranked: seq<Address>, transcript: Digest, nonce: nat)

  /** `encodeData` of an address[]: the left-padded addresses in order. */
  function ArrayPreimage(ranked: seq<Address>): (b: seq<byte>)
    ensures |b| == 32 * |ranked|
  {
    if ranked == [] then [] else ArrayPreimage(ranked[..|ranked| - 1]) + PadLeft32(ranked[|ranked| - 1])
  }

  function LadderTypeString(): string {
    "MultiplayerLadder" + "(" + "bytes32 matchId" + "," + "bytes32 gameId" + "," + "address[] rankedPlacements" + ","
    + "bytes32 transcriptHash" + "," + "uint256 sessionNonce" + ")"
  }

  /** hashStruct hashes typeHash || encodeData. */
  function StructPreimage(h: Hash, l: Ladder): seq<byte> {
    h(Raw(LadderTypeString())) + l.matchId + l.gameId + h(ArrayPreimage(l.ranked)) + l.transcript + Word32(l.nonce)
  }

  function LadderDomainPreimage(h: Hash, l: Ladder): seq<byte> {
    DomainPreimage(h, "AMPMultiplayer", "1", l.chainId, l.contract)
  }

  function LadderPreimage(h: Hash, l: Ladder): seq<byte> {
    DigestPreimage(h(LadderDomainPreimage(h, l)), h(StructPreimage(h, l)))
  }

  function LadderDigest(h: Hash, l: Ladder): Digest {
    h(LadderPreimage(h, l))
  }

  /** Well-formed arguments: 0x and 40 hex digits for addresses, 0x and 64 for 32-byte fields. */
  predicate WellFormed(i: LadderInput) {
    && i.chainId <= U64_MAX && i.sessionNonce <= U64_MAX
    && IsHexString(i.contractAddress) && |i.contractAddress| == 42
    && IsHexString(i.matchId) && |i.matchId| == 66
    && IsHexString(i.gameId) && |i.gameId| == 66
    && IsHexString(i.transcriptHash) && |i.transcriptHash| == 66
    && forall k | 0 <= k < |i.rankedPlacements| ::
         IsHexString(i.rankedPlacements[k]) && |i.rankedPlacements[k]| == 42
  }

  predicate WellFormedAddresses(s: seq<string>) {
    forall k | 0 <= k < |s| :: IsHexString(s[k]) && |s[k]| == 42
  }

  function Addresses(s: seq<string>): (r: seq<Address>)
    requires WellFormedAddresses(s)
    ensures |r| == |s|
  {
    seq(|s|, k requires 0 <= k < |s| => HexBytes(s[k]))
  }

  /** The typed values a well-formed input denotes. */
  function Denotes(i: LadderInput): Ladder
    requires WellFormed(i)
  {
    Ladder(i.chainId, HexBytes(i.contractAddress), HexBytes(i.matchId), HexBytes(i.gameId),
           Addresses(i.rankedPlacements), HexBytes(i.transcriptHash), i.sessionNonce)
  }

  // ----- where the parts stand, and what they denote -----

  lemma {:induction false} ZerosAreZero(n: nat)
    ensures BigEndianValue(Zeros(n)) == 0
  {
    if n > 0 {
      assert Zeros(n)[..n - 1] == Zeros(n - 1);
      ZerosAreZero(n - 1);
    }
  }

  lemma {:induction false} LeadingZeros(n: nat, b: seq<byte>)
    ensures BigEndianValue(Zeros(n) + b) == BigEndianValue(b)
  {
    hide Zeros;
    var s := Zeros(n) + b;
    if b == [] {
      assert s == Zeros(n);
      ZerosAreZero(n);
    } else {
      var front := b[..|b| - 1];
      assert s[..|s| - 1] == Zeros(n) + front && s[|s| - 1] == b[|b| - 1];
      LeadingZeros(n, front);
    }
  }

  /** Padding on the left keeps the number that the bytes denote; over-long values become zero. */
  lemma PadLeft32Value(b: seq<byte>)
    ensures BigEndianValue(PadLeft32(b)) == if |b| <= 32 then BigEndianValue(b) else 0
  {
    hide BigEndianValue, Zeros;
    if |b| <= 32 {
      LeadingZeros(32 - |b|, b);
    } else {
      ZerosAreZero(32);
    }
  }

  /** Padding on the right keeps the bytes in front, where EIP-712 wants a bytes32. Of over-long values the SDK
      keeps nothing and AmpCore the first 32 bytes. */
  lemma PadRight32Layout(b: seq<byte>)
    ensures |b| <= 32 ==> SdkPadRight32(b) == CorePadRight32(b)
    ensures |b| <= 32 ==> SdkPadRight32(b)[..|b|] == b && forall i | |b| <= i < 32 :: SdkPadRight32(b)[i] == 0
    ensures |b| > 32 ==> BigEndianValue(SdkPadRight32(b)) == 0 && CorePadRight32(b) <= b
  {
    hide BigEndianValue;
    ZerosAreZero(32);
  }

  function DomainFields(): seq<Field> {
    [Field("name", "string"), Field("version", "string"), Field("chainId", "uint256"), Field("verifyingContract", "address")]
  }

  /** The domain's type string is that of the four fields, in the order of the words of the preimage. */
  lemma DomainTypeStringBuilt()
    ensures TypeString("EIP712Domain", DomainFields()) == DomainTypeString()
  {
    FourFields(DomainFields());
    DomainFieldText();
  }

  lemma FourFields(f: seq<Field>)
    requires |f| == 4
    ensures FieldList(f) == FieldText1(f[0]) + "," + FieldText1(f[1]) + "," + FieldText1(f[2]) + "," + FieldText1(f[3])
  {
    FieldListOne(f);
    hide FieldText1, FieldList;
    FieldListStep(f, 1);
    FieldListStep(f, 2);
    FieldListStep(f, 3);
    assert f[..4] == f;
  }

  lemma DomainFieldText()
    ensures "string" + " " + "name" == "string name"
    ensures "string" + " " + "version" == "string version"
    ensures "uint256" + " " + "chainId" == "uint256 chainId"
    ensures "address" + " " + "verifyingContract" == "address verifyingContract"
  {
  }

  lemma DomainLayout(h: Hash, name: string, version: string, chainId: nat, contract: seq<byte>)
    requires chainId <= U64_MAX && |contract| <= 32
    ensures var p := DomainPreimage(h, name, version, chainId, contract);
      && |p| == 160
      && p[..32] == h(Raw(TypeString("EIP712Domain", DomainFields())))
      && p[32..64] == h(Raw(name)) && p[64..96] == h(Raw(version))
      && BigEndianValue(p[96..128]) == chainId && BigEndianValue(p[128..]) == BigEndianValue(contract)
  {
    hide Raw, DomainTypeString, TypeString, DomainFields, Word32, PadLeft32, BigEndianValue;
    DomainTypeStringBuilt();
    Word32RoundTrip(chainId);
    PadLeft32Value(contract);
    var t: seq<byte>, n: seq<byte>, v: seq<byte> := h(Raw(DomainTypeString())), h(Raw(name)), h(Raw(version));
    FiveWords(t, n, v, Word32(chainId), PadLeft32(contract));
  }

  lemma FiveWords(a: seq<byte>, b: seq<byte>, c: seq<byte>, d: seq<byte>, e: seq<byte>)
    requires |a| == |b| == |c| == |d| == |e| == 32
    ensures var p := a + b + c + d + e;
      p[..32] == a && p[32..64] == b && p[64..96] == c && p[96..128] == d && p[128..] == e
  {
  }

  /** The struct preimage word by word. */
  lemma StructLayout(h: Hash, l: Ladder)
    requires l.nonce <= U64_MAX
    ensures var p := StructPreimage(h, l);
      && |p| == 192
      && p[..32] == h(Raw(TypeString(LadderTypeName(), LadderFields())))
      && p[32..64] == l.matchId && p[64..96] == l.gameId && p[96..128] == h(ArrayPreimage(l.ranked))
      && p[128..160] == l.transcript && BigEndianValue(p[160..]) == l.nonce
  {
    hide Raw, LadderTypeString, LadderTypeName, LadderFields, TypeString, Word32, ArrayPreimage, BigEndianValue;
    LadderTypeStringBuilt();
    Word32RoundTrip(l.nonce);
    var t: seq<byte> := h(Raw(LadderTypeString()));
    var a: seq<byte> := h(ArrayPreimage(l.ranked));
    FiveWords(t, l.matchId, l.gameId, a, l.transcript);
    assert StructPreimage(h, l)[..160] == t + l.matchId + l.gameId + a + l.transcript;
    var p := StructPreimage(h, l);
    assert p[..32] == p[..160][..32] && p[32..64] == p[..160][32..64] && p[64..96] == p[..160][64..96];
    assert p[96..128] == p[..160][96..128] && p[128..160] == p[..160][128..];
    assert p[160..] == Word32(l.nonce);
  }

  /** Word k of the array encoding is the number that the k-th address denotes. */
  lemma {:induction false} ArrayLayout(ranked: seq<Address>, k: nat)
    requires k < |ranked|
    ensures BigEndianValue(ArrayPreimage(ranked)[32 * k..32 * k + 32]) == BigEndianValue(ranked[k])
    decreases |ranked|
  {
    hide PadLeft32, BigEndianValue;
    var m := |ranked| - 1;
    var front, p := ArrayPreimage(ranked[..m]), ArrayPreimage(ranked);
    if k == m {
      assert p[32 * k..32 * k + 32] == PadLeft32(ranked[m]);
      PadLeft32Value(ranked[m]);
    } else {
      assert p[32 * k..32 * k + 32] == front[32 * k..32 * k + 32];
      ArrayLayout(ranked[..m], k);
    }
  }

  /** The two marker bytes, the domain hash, the struct hash. */
  lemma DigestLayout(domainSeparator: Digest, structHash: Digest)
    ensures var p := DigestPreimage(domainSeparator, structHash);
      |p| == 66 && p[0] == 0x19 && p[1] == 0x01 && p[2..34] == domainSeparator && p[34..] == structHash
  {
  }

  /** What the word of a field means, by its type. */
  predicate IsFieldWord(h: Hash, typ: string, value: string, w: Digest) {
    if typ == "string" then w == h(Raw(value))
    else if typ == "uint256" || typ == "uint" then
      BigEndianValue(w) == if IsUint64(value) then DecValue(value) else 0
    else if typ == "bytes32" then
      IsHexString(value) && |value| <= 66 ==>
        var b := HexBytes(value); w[..|b|] == b && forall i | |b| <= i < 32 :: w[i] == 0
    else if typ == "address" then
      IsHexString(value) && |value| <= 66 ==> BigEndianValue(w) == BigEndianValue(HexBytes(value))
    else BigEndianValue(w) == 0
  }

  lemma UintWord(value: string)
    ensures BigEndianValue(Word32(UintOrZero(value))) == if IsUint64(value) then DecValue(value) else 0
  {
    hide Word32, BigEndianValue;
    Word32RoundTrip(UintOrZero(value));
  }

  // ----- the reference encoding is binding -----

  lemma PadLeft32Injective(a: Address, b: Address)
    requires PadLeft32(a) == PadLeft32(b)
    ensures a == b
  {
    assert a == PadLeft32(a)[12..] && b == PadLeft32(b)[12..];
  }

  lemma {:induction false} ArrayPreimageInjective(a: seq<Address>, b: seq<Address>)
    requires ArrayPreimage(a) == ArrayPreimage(b)
    ensures a == b
  {
    hide PadLeft32;
    assert |a| == |b|;
    if a != [] {
      var m := |a| - 1;
      LastAddress(a);
      LastAddress(b);
      ArrayPreimageInjective(a[..m], b[..m]);
      PadLeft32Injective(a[m], b[m]);
      assert a == a[..m] + [a[m]] && b == b[..m] + [b[m]];
    }
  }

  lemma LastAddress(a: seq<Address>)
    requires a != []
    ensures var m := |a| - 1;
      ArrayPreimage(a[..m]) == ArrayPreimage(a)[..32 * m] && PadLeft32(a[m]) == ArrayPreimage(a)[32 * m..]
  {
    hide PadLeft32;
  }

  lemma SixWords(a: Digest, b: Digest, c: Digest, d: Digest, e: Digest, f: Digest,
                 a': Digest, b': Digest, c': Digest, d': Digest, e': Digest, f': Digest)
    requires a + b + c + d + e + f == a' + b' + c' + d' + e' + f'
    ensures a == a' && b == b' && c == c' && d == d' && e == e' && f == f'
  {
    var s, s' := a + b + c + d + e + f, a' + b' + c' + d' + e' + f';
    assert a == s[..32] && b == s[32..64] && c == s[64..96] && d == s[96..128] && e == s[128..160] && f == s[160..];
    assert a' == s'[..32] && b' == s'[32..64] && c' == s'[64..96] && d' == s'[96..128] && e' == s'[128..160] && f' == s'[160..];
  }

  lemma DomainBinds(h: Hash, a: Ladder, b: Ladder)
    requires a.chainId <= U64_MAX && b.chainId <= U64_MAX
    requires LadderDomainPreimage(h, a) == LadderDomainPreimage(h, b)
    ensures a.chainId == b.chainId && a.contract == b.contract
  {
    hide Raw, DomainTypeString, Word32, PadLeft32;
    var t, n, v := h(Raw(DomainTypeString())), h(Raw("AMPMultiplayer")), h(Raw("1"));
    var s: seq<byte> := LadderDomainPreimage(h, a);
    var s': seq<byte> := LadderDomainPreimage(h, b);
    assert Word32(a.chainId) == s[96..128] && PadLeft32(a.contract) == s[128..];
    assert Word32(b.chainId) == s'[96..128] && PadLeft32(b.contract) == s'[128..];
    Word32Injective(a.chainId, b.chainId);
    PadLeft32Injective(a.contract, b.contract);
  }

  lemma StructBinds(h: Hash, a: Ladder, b: Ladder)
    requires a.nonce <= U64_MAX && b.nonce <= U64_MAX
    requires StructPreimage(h, a) == StructPreimage(h, b)
    ensures a.matchId == b.matchId && a.gameId == b.gameId && a.transcript == b.transcript && a.nonce == b.nonce
    ensures a.ranked == b.ranked || Collision(h, ArrayPreimage(a.ranked), ArrayPreimage(b.ranked))
  {
    hide Raw, LadderTypeString, Word32, ArrayPreimage;
    var t := h(Raw(LadderTypeString()));
    SixWords(t, a.matchId, a.gameId, h(ArrayPreimage(a.ranked)), a.transcript, Word32(a.nonce),
             t, b.matchId, b.gameId, h(ArrayPreimage(b.ranked)), b.transcript, Word32(b.nonce));
    Word32Injective(a.nonce, b.nonce);
    if ArrayPreimage(a.ranked) == ArrayPreimage(b.ranked) {
      ArrayPreimageInjective(a.ranked, b.ranked);
    }
  }

  lemma DigestPreimageSplits(d: Digest, s: Digest, d': Digest, s': Digest)
    requires DigestPreimage(d, s) == DigestPreimage(d', s')
    ensures d == d' && s == s'
  {
    var p, q := DigestPreimage(d, s), DigestPreimage(d', s');
    assert d == p[2..34] && s == p[34..] && d' == q[2..34] && s' == q[34..];
  }

  /** One of the four nested hash calls is a collision. */
  ghost predicate NestedCollision(h: Hash, a: Ladder, b: Ladder) {
    || Collision(h, LadderPreimage(h, a), LadderPreimage(h, b))
    || Collision(h, LadderDomainPreimage(h, a), LadderDomainPreimage(h, b))
    || Collision(h, StructPreimage(h, a), StructPreimage(h, b))
    || Collision(h, ArrayPreimage(a.ranked), ArrayPreimage(b.ranked))
  }

  /** The digest commits to every field and to the ranked order: equal digests mean equal ladders,
      or one of the explicit nested preimages is a collision of the hash function. */
  lemma LadderDigestBinds(h: Hash, a: Ladder, b: Ladder)
    requires a.chainId <= U64_MAX && b.chainId <= U64_MAX && a.nonce <= U64_MAX && b.nonce <= U64_MAX
    requires LadderDigest(h, a) == LadderDigest(h, b)
    ensures a == b || NestedCollision(h, a, b)
  {
    hide LadderPreimage, LadderDomainPreimage, StructPreimage, ArrayPreimage;
    if !NestedCollision(h, a, b) {
      assert LadderPreimage(h, a) == LadderPreimage(h, b);
      PreimageBinds(h, a, b);
    }
  }

  lemma PreimageBinds(h: Hash, a: Ladder, b: Ladder)
    requires a.chainId <= U64_MAX && b.chainId <= U64_MAX && a.nonce <= U64_MAX && b.nonce <= U64_MAX
    requires LadderPreimage(h, a) == LadderPreimage(h, b) && !NestedCollision(h, a, b)
    ensures a == b
  {
    hide LadderDomainPreimage, StructPreimage, ArrayPreimage, DigestPreimage;
    DigestPreimageSplits(h(LadderDomainPreimage(h, a)), h(StructPreimage(h, a)),
                         h(LadderDomainPreimage(h, b)), h(StructPreimage(h, b)));
    DomainBinds(h, a, b);
    StructBinds(h, a, b);
  }

  /** No ladder preimage is an EIP-191 preimage, so a signature of one kind is not one of the other
      unless the hash function collides. */
  lemma LadderIsNotPersonalMessage(h: Hash, l: Ladder, m: seq<byte>)
    ensures LadderPreimage(h, l) != Eip191Preimage(m)
  {
    hide LadderDomainPreimage, StructPreimage, Eip191Preimage;
    var d: seq<byte> := h(LadderDomainPreimage(h, l));
    var s: seq<byte> := h(StructPreimage(h, l));
    var rest := d + s;
    Eip191IsNotEip712(m, rest);
    assert LadderPreimage(h, l) == [0x19, 0x01] + rest;
  }

  /** The type string both implementations assemble from the field list is the one EIP-712 prescribes. */
  lemma LadderTypeStringBuilt()
    ensures TypeString(LadderTypeName(), LadderFields()) == LadderTypeString()
  {
    var f := LadderFields();
    FieldListSteps(f);
    FieldText();
  }

  lemma FieldText()
    ensures "bytes32" + " " + "matchId" == "bytes32 matchId"
    ensures "bytes32" + " " + "gameId" == "bytes32 gameId"
    ensures "address[]" + " " + "rankedPlacements" == "address[] rankedPlacements"
    ensures "bytes32" + " " + "transcriptHash" == "bytes32 transcriptHash"
    ensures "uint256" + " " + "sessionNonce" == "uint256 sessionNonce"
  {
  }

  function FieldText1(f: Field): string {
    f.typ + " " + f.name
  }

  function Listed(a: string, b: string, c: string, d: string, e: string): string {
    a + "," + b + "," + c + "," + d + "," + e
  }

  lemma FieldListSteps(f: seq<Field>)
    requires |f| == 5
    ensures FieldList(f) == Listed(FieldText1(f[0]), FieldText1(f[1]), FieldText1(f[2]), FieldText1(f[3]), FieldText1(f[4]))
  {
    FieldListOne(f);
    hide FieldText1, FieldList;
    FieldListStep(f, 1);
    FieldListStep(f, 2);
    FieldListStep(f, 3);
    FieldListStep(f, 4);
    assert f[..5] == f;
  }

  lemma FieldListOne(f: seq<Field>)
    requires f != []
    ensures FieldList(f[..1]) == FieldText1(f[0])
  {
  }

  /** One more field appends a comma and its text. */
  lemma FieldListStep(f: seq<Field>, k: nat)
    requires 1 <= k < |f|
    ensures FieldList(f[..k + 1]) == FieldList(f[..k]) + "," + FieldText1(f[k])
  {
    var s, t, n := FieldList(f[..k]), f[k].typ, f[k].name;
    assert f[..k + 1][..k] == f[..k];
    assert s + "," + t + " " + n == s + "," + (t + " " + n);
  }
}
