/** The AmpCore encoder: placements travel as entries of a sorted map, so the array is encoded in
    the lexicographic order of their decimal index keys. */
module LadderCore {
  import opened Bytes
  import opened Numbers
  import opened Hex
  import opened Results
  import opened StringMap
  import opened Eip712
  import opened Messages
  import LadderSdk

  // ----- computeStructHash -----

  const ADDRESS_LENGTH := 42

  /** The padded bytes of every 42-character value of the map, in key order. */
  function CoreArrayBytes(m: StringMap): seq<byte> {
    if m == [] then [] else EntryBytes(m[0].value) + CoreArrayBytes(m[1..])
  }

  function EntryBytes(val: string): seq<byte> {
    if |val| == ADDRESS_LENGTH then PadLeft32(CoreDecode(val)) else []
  }

  method EncodeAddressArray(message: StringMap) returns (addrPacked: seq<byte>)
    ensures addrPacked == CoreArrayBytes(message)
  {
    hide CoreDecode, PadLeft32, CoreArrayBytes;
    addrPacked := [];
    assert message[0..] == message;
    for i := 0 to |message|
      invariant CoreArrayBytes(message) == addrPacked + CoreArrayBytes(message[i..])
    {
      ghost var before := addrPacked;
      var val := message[i].value;
      ArrayBytesStep(message, i, addrPacked);
      if |val| == ADDRESS_LENGTH {
        var a := CoreFromHex(val);
        addrPacked := addrPacked + PadLeft32(a);
      }
      assert addrPacked == before + EntryBytes(val);
    }
    NoMoreEntries(message);
  }

  lemma NoMoreEntries(m: StringMap)
    ensures CoreArrayBytes(m[|m|..]) == []
  {
  }

  lemma ArrayBytesStep(m: StringMap, i: nat, done: seq<byte>)
    requires i < |m|
    ensures done + CoreArrayBytes(m[i..]) == done + EntryBytes(m[i].value) + CoreArrayBytes(m[i + 1..])
  {
    hide EntryBytes;
    assert m[i..][1..] == m[i + 1..];
  }

  function EncodeFieldValue(h: Hash, field: Field, value: string): Digest {
    if field.typ == "string" then h(Raw(value))
    else if field.typ == "bytes32" then CorePadRight32(CoreDecode(value))
    else if field.typ == "uint256" || field.typ == "uint" then Word32(UintOrZero(value))
    else if field.typ == "address" then PadLeft32(CoreDecode(value))
    else Zeros(32)
  }

  /** The word of a field that is no array means what its type says. */
  lemma FieldWordIs(h: Hash, field: Field, value: string)
    ensures IsFieldWord(h, field.typ, value, EncodeFieldValue(h, field, value))
  {
    hide Raw, CoreDecode, CorePadRight32, SdkPadRight32, PadLeft32, Word32, BigEndianValue, HexBytes, IsHexString, UintOrZero, Zeros;
    if IsHexString(value) && |value| <= 66 {
      CoreDecodesHex(value);
      PadRight32Layout(HexBytes(value));
      PadLeft32Value(HexBytes(value));
    }
    UintWord(value);
    ZerosAreZero(32);
  }

  function EncodeField(h: Hash, field: Field, message: StringMap): Digest {
    if field.typ == "address[]" then h(CoreArrayBytes(message))
    else EncodeFieldValue(h, field, GetOrEmpty(message, field.name))
  }

  function EncodeData(h: Hash, fields: seq<Field>, message: StringMap): seq<byte> {
    if fields == [] then []
    else EncodeData(h, fields[..|fields| - 1], message) + EncodeField(h, fields[|fields| - 1], message)
  }

  function CoreStructPreimage(h: Hash, data: TypedData): Outcome<seq<byte>> {
    if data.primaryType !in data.types then Thrown else
    var fields := data.types[data.primaryType];
    Returned(h(Raw(TypeString(data.primaryType, fields))) + EncodeData(h, fields, data.message))
  }

  method EncodeOneField(h: Hash, field: Field, message: StringMap) returns (r: Digest)
    ensures r == EncodeField(h, field, message)
  {
    hide CoreDecode, CoreArrayBytes, PadLeft32, CorePadRight32, Word32;
    if field.typ == "address[]" {
      var addrPacked := EncodeAddressArray(message);
      return h(addrPacked);
    }
    var value := GetOrEmpty(message, field.name);
    if field.typ == "string" {
      return h(Raw(value));
    } else if field.typ == "bytes32" {
      var b := CoreFromHex(value);
      return CorePadRight32(b);
    } else if field.typ == "uint256" || field.typ == "uint" {
      var v := ParseUint64(value, 0);
      var word := ToWord32(v);
      return word[..];
    } else if field.typ == "address" {
      var b := CoreFromHex(value);
      return PadLeft32(b);
    }
    return Zeros(32);
  }

  /** `types.at` fails for an unknown struct name, the only failing path. */
  method ComputeStructHash(h: Hash, data: TypedData) returns (r: Outcome<Digest>)
    ensures r == if CoreStructPreimage(h, data).Thrown? then Thrown else Returned(h(CoreStructPreimage(h, data).value))
  {
    hide EncodeField, TypeString, Raw;
    if data.primaryType !in data.types {
      return Thrown;
    }
    var fields := data.types[data.primaryType];
    var typeString := LadderSdk.BuildTypeString(data.primaryType, fields);
    var typeHash := h(Raw(typeString));
    var enc: seq<byte> := typeHash;
    for i := 0 to |fields|
      invariant enc == typeHash + EncodeData(h, fields[..i], data.message)
    {
      assert fields[..i + 1][..i] == fields[..i];
      var encField := EncodeOneField(h, fields[i], data.message);
      enc := enc + encField;
    }
    assert fields[..|fields|] == fields;
    return Returned(h(enc));
  }

  // ----- computeEip712Digest -----

  function CoreDomainPreimage(h: Hash, data: TypedData): seq<byte> {
    DomainPreimage(h, data.name, data.version, data.chainId, CoreDecode(data.verifyingContract))
  }

  function CoreDigestPreimage(h: Hash, data: TypedData): Outcome<seq<byte>> {
    var struct := CoreStructPreimage(h, data);
    if struct.Thrown? then Thrown
    else Returned(DigestPreimage(h(CoreDomainPreimage(h, data)), h(struct.value)))
  }

  function CoreDigest(h: Hash, data: TypedData): Outcome<Digest> {
    var p := CoreDigestPreimage(h, data);
    if p.Thrown? then Thrown else Returned(h(p.value))
  }

  // ----- buildLadderTypedData -----

  function PlacementKey(k: nat): string {
    "placement" + Dec(k)
  }

  function PutPlacements(m: StringMap, ranked: seq<string>, n: nat): StringMap
    requires n <= |ranked|
  {
    if n == 0 then m else Put(PutPlacements(m, ranked, n - 1), PlacementKey(n - 1), ranked[n - 1])
  }

  function HeadOfMessage(i: LadderInput): StringMap {
    Put(Put([], "matchId", i.matchId), "gameId", i.gameId)
  }

  function CoreMessage(i: LadderInput): StringMap {
    Put(Put(PutPlacements(HeadOfMessage(i), i.rankedPlacements, |i.rankedPlacements|),
            "transcriptHash", i.transcriptHash),
        "sessionNonce", Dec(i.sessionNonce))
  }

  function CoreLadder(i: LadderInput): TypedData {
    TypedData("AMPMultiplayer", "1", i.chainId, i.contractAddress, LadderTypeName(),
              map[LadderTypeName() := LadderFields()], CoreMessage(i))
  }

  method BuildLadderTypedData(i: LadderInput) returns (td: TypedData)
    ensures td == CoreLadder(i)
  {
    hide Put, Dec;
    var message := Put([], "matchId", i.matchId);
    message := Put(message, "gameId", i.gameId);
    for k := 0 to |i.rankedPlacements|
      invariant message == PutPlacements(HeadOfMessage(i), i.rankedPlacements, k)
    {
      message := Put(message, "placement" + Dec(k), i.rankedPlacements[k]);
    }
    message := Put(message, "transcriptHash", i.transcriptHash);
    message := Put(message, "sessionNonce", Dec(i.sessionNonce));
    td := TypedData("AMPMultiplayer", "1", i.chainId, i.contractAddress, LadderTypeName(),
                    map[LadderTypeName() := LadderFields()], message);
  }

  // ----- the order in which the sorted map lists n placements -----

  function InsertIndex(order: seq<nat>, k: nat): (r: seq<nat>)
    ensures |r| == |order| + 1
  {
    if order == [] then [k]
    else if Less(Dec(k), Dec(order[0])) then [k] + order
    else [order[0]] + InsertIndex(order[1..], k)
  }

  /** Indices 0..n-1 sorted as decimal strings. */
  function LexOrder(n: nat): (r: seq<nat>)
    ensures |r| == n
  {
    if n == 0 then [] else InsertIndex(LexOrder(n - 1), n - 1)
  }

  lemma {:induction false} InsertIndexMembers(order: seq<nat>, k: nat, j: nat)
    ensures j in InsertIndex(order, k) <==> j == k || j in order
  {
    if order != [] && !Less(Dec(k), Dec(order[0])) {
      InsertIndexMembers(order[1..], k, j);
      assert order == [order[0]] + order[1..];
    }
  }

  /** The order is a permutation: it lists exactly the indices below n (and has length n). */
  lemma {:induction false} LexOrderMembers(n: nat, j: nat)
    ensures j in LexOrder(n) <==> j < n
  {
    if n > 0 {
      LexOrderMembers(n - 1, j);
      InsertIndexMembers(LexOrder(n - 1), n - 1, j);
    }
  }

  ghost predicate DecSorted(order: seq<nat>) {
    forall i, j | 0 <= i < j < |order| :: Less(Dec(order[i]), Dec(order[j]))
  }

  lemma {:induction false} InsertKeepsDecSorted(order: seq<nat>, k: nat)
    requires DecSorted(order) && k !in order
    ensures DecSorted(InsertIndex(order, k))
  {
    hide Dec, Less;
    var r := InsertIndex(order, k);
    if order == [] {
    } else if Less(Dec(k), Dec(order[0])) {
      forall j | 0 < j < |r|
        ensures Less(Dec(k), Dec(r[j]))
      {
        if j > 1 {
          LessTransitive(Dec(k), Dec(order[0]), Dec(r[j]));
        }
      }
    } else {
      assert k !in order[1..];
      InsertKeepsDecSorted(order[1..], k);
      LessTotal(Dec(k), Dec(order[0]));
      if Dec(k) == Dec(order[0]) {
        DecInjective(k, order[0]);
      }
      forall j | 0 < j < |r|
        ensures Less(Dec(order[0]), Dec(r[j]))
      {
        assert r[j] == r[1..][j - 1] && r[j] in r[1..];
        InsertIndexMembers(order[1..], k, r[j]);
      }
    }
  }

  /** ... in strictly increasing lexicographic order of the decimal numerals. */
  lemma {:induction false} LexOrderIsSorted(n: nat)
    ensures DecSorted(LexOrder(n))
  {
    if n > 0 {
      LexOrderIsSorted(n - 1);
      LexOrderMembers(n - 1, n - 1);
      InsertKeepsDecSorted(LexOrder(n - 1), n - 1);
    }
  }

  // ----- the map lists the placements in that order -----

  /** The entries whose value has the length of an address, in key order. */
  function Sized(m: StringMap): StringMap {
    if m == [] then [] else (if |m[0].value| == ADDRESS_LENGTH then [m[0]] else []) + Sized(m[1..])
  }

  lemma {:induction false} SizedSkips(m: StringMap, k: string, v: string)
    requires !HasKey(m, k) && |v| != ADDRESS_LENGTH
    ensures Sized(Put(m, k, v)) == Sized(m)
  {
    if m == [] {
      assert Put(m, k, v)[1..] == [];
    } else if Less(k, m[0].key) {
      assert m[0].key != k;
      assert Put(m, k, v)[1..] == m;
    } else {
      assert m[0].key != k;
      HasKeyOfTail(m, k);
      SizedSkips(m[1..], k, v);
      assert Put(m, k, v)[1..] == Put(m[1..], k, v);
    }
  }

  lemma {:induction false} SizedAfter(m: StringMap, k: string)
    requires Sorted(m) && (m != [] ==> Less(k, m[0].key))
    ensures Sized(m) != [] ==> Less(k, Sized(m)[0].key)
  {
    if m != [] && |m[0].value| != ADDRESS_LENGTH {
      if |m| > 1 {
        LessTransitive(k, m[0].key, m[1].key);
      }
      SizedAfter(m[1..], k);
    }
  }

  lemma PutInFront(m: StringMap, k: string, v: string)
    requires m != [] ==> Less(k, m[0].key)
    ensures Put(m, k, v) == [Entry(k, v)] + m
  {
    if m != [] {
      LessIrreflexive(k);
    }
  }

  lemma {:induction false} SizedTakes(m: StringMap, k: string, v: string)
    requires Sorted(m) && !HasKey(m, k) && |v| == ADDRESS_LENGTH
    ensures Sized(Put(m, k, v)) == Put(Sized(m), k, v)
  {
    if m == [] {
      assert Put(m, k, v)[1..] == [];
    } else if Less(k, m[0].key) {
      assert m[0].key != k;
      assert Put(m, k, v)[1..] == m;
      SizedAfter(m, k);
      PutInFront(Sized(m), k, v);
    } else {
      assert m[0].key != k;
      HasKeyOfTail(m, k);
      SizedTakes(m[1..], k, v);
      if |m[0].value| == ADDRESS_LENGTH {
        assert Sized(m)[1..] == Sized(m[1..]);
      } else {
        assert Sized(m) == Sized(m[1..]);
      }
      assert Put(m, k, v)[1..] == Put(m[1..], k, v);
    }
  }

  /** Entries for the indices of `order`. */
  function EntriesOf(order: seq<nat>, ranked: seq<string>): StringMap
    requires forall j | j in order :: j < |ranked|
  {
    seq(|order|, k requires 0 <= k < |order| =>
      assert order[k] in order;
      Entry(PlacementKey(order[k]), ranked[order[k]]))
  }

  lemma PlacementKeyLess(j: nat, k: nat)
    ensures Less(PlacementKey(j), PlacementKey(k)) == Less(Dec(j), Dec(k))
    ensures PlacementKey(j) == PlacementKey(k) ==> j == k
  {
    hide Less, Dec;
    LessWithPrefix("placement", Dec(j), Dec(k));
    if PlacementKey(j) == PlacementKey(k) {
      assert Dec(j) == PlacementKey(j)[9..] && Dec(k) == PlacementKey(k)[9..];
      DecInjective(j, k);
    }
  }

  lemma {:induction false} PutIsInsert(order: seq<nat>, ranked: seq<string>, k: nat)
    requires (forall j | j in order :: j < |ranked|) && k < |ranked| && k !in order
    ensures forall j | j in InsertIndex(order, k) :: j < |ranked|
    ensures Put(EntriesOf(order, ranked), PlacementKey(k), ranked[k]) == EntriesOf(InsertIndex(order, k), ranked)
  {
    hide Less, Dec, PlacementKey;
    forall j | j in InsertIndex(order, k)
      ensures j < |ranked|
    {
      InsertIndexMembers(order, k, j);
    }
    var e := EntriesOf(order, ranked);
    if order != [] {
      PlacementKeyLess(k, order[0]);
      if !Less(Dec(k), Dec(order[0])) {
        assert forall j | j in order[1..] :: j in order;
        PutIsInsert(order[1..], ranked, k);
        assert e[1..] == EntriesOf(order[1..], ranked);
        assert e == [e[0]] + e[1..];
      }
    }
  }

  /** "placement..." is none of the fixed keys. */
  lemma PlacementKeyIsNew(k: nat)
    ensures PlacementKey(k) != "matchId" && PlacementKey(k) != "gameId"
    ensures PlacementKey(k) != "transcriptHash" && PlacementKey(k) != "sessionNonce"
  {
    hide Dec;
    assert PlacementKey(k)[0] == 'p' && "matchId"[0] == 'm' && "gameId"[0] == 'g';
    assert "transcriptHash"[0] == 't' && "sessionNonce"[0] == 's';
  }

  ghost predicate OnlyKeys(m: StringMap, n: nat) {
    forall q :: HasKey(m, q) ==> q == "matchId" || q == "gameId" || exists j: nat :: j < n && q == PlacementKey(j)
  }

  /** After n placements the map is sorted, holds the two head fields and the placements, and lists
      the latter in LexOrder. */
  lemma {:induction false} PlacementsInLexOrder(i: LadderInput, n: nat)
    requires WellFormed(i) && n <= |i.rankedPlacements|
    ensures forall j | j in LexOrder(n) :: j < |i.rankedPlacements|
    ensures var m := PutPlacements(HeadOfMessage(i), i.rankedPlacements, n);
      Sorted(m) && OnlyKeys(m, n) && Sized(m) == EntriesOf(LexOrder(n), i.rankedPlacements)
  {
    hide Put, Dec, Less, HasKey, PlacementKey, Sorted, Sized, EntriesOf;
    forall j | j in LexOrder(n)
      ensures j < |i.rankedPlacements|
    {
      LexOrderMembers(n, j);
    }
    if n == 0 {
      HeadIsClean(i);
      NoEntries(i.rankedPlacements);
    } else {
      var k := n - 1;
      var m := PutPlacements(HeadOfMessage(i), i.rankedPlacements, k);
      PlacementsInLexOrder(i, k);
      PlacementIsFresh(m, k);
      PutKeepsSorted(m, PlacementKey(k), i.rankedPlacements[k]);
      SizedTakes(m, PlacementKey(k), i.rankedPlacements[k]);
      LexOrderMembers(k, k);
      PutIsInsert(LexOrder(k), i.rankedPlacements, k);
      KeysAfterPlacement(m, k, i.rankedPlacements[k]);
    }
  }

  lemma PlacementIsFresh(m: StringMap, n: nat)
    requires OnlyKeys(m, n)
    ensures !HasKey(m, PlacementKey(n))
  {
    hide HasKey, PlacementKey;
    PlacementKeyIsNew(n);
    forall j: nat | j < n
      ensures PlacementKey(j) != PlacementKey(n)
    {
      PlacementKeyLess(j, n);
    }
  }

  lemma KeysAfterPlacement(m: StringMap, n: nat, v: string)
    requires OnlyKeys(m, n)
    ensures OnlyKeys(Put(m, PlacementKey(n), v), n + 1)
  {
    hide HasKey, PlacementKey, Put;
    forall q | HasKey(Put(m, PlacementKey(n), v), q)
      ensures q == "matchId" || q == "gameId" || exists j: nat :: j < n + 1 && q == PlacementKey(j)
    {
      HasKeyAfterPut(m, PlacementKey(n), v, q);
      if q == PlacementKey(n) {
        assert n < n + 1;
      }
    }
  }

  lemma HeadIsClean(i: LadderInput)
    requires WellFormed(i)
    ensures var m := HeadOfMessage(i); Sorted(m) && OnlyKeys(m, 0) && Sized(m) == []
  {
    var m1 := Put([], "matchId", i.matchId);
    PutKeepsSorted([], "matchId", i.matchId);
    PutKeepsSorted(m1, "gameId", i.gameId);
    assert |"matchId"| == 7 && |"gameId"| == 6;
    assert m1 == [Entry("matchId", i.matchId)];
    assert m1[1..] == [];
    SizedSkips(m1, "gameId", i.gameId);
    forall q | HasKey(HeadOfMessage(i), q)
      ensures q == "matchId" || q == "gameId"
    {
      HasKeyAfterPut(m1, "gameId", i.gameId, q);
    }
  }

  lemma NoEntries(ranked: seq<string>)
    ensures EntriesOf([], ranked) == []
  {
  }

  // ----- the array preimage -----

  predicate Indices(order: seq<nat>, n: nat) {
    forall j | j in order :: j < n
  }

  function Permuted(order: seq<nat>, ranked: seq<Address>): (r: seq<Address>)
    requires Indices(order, |ranked|)
    ensures |r| == |order|
  {
    seq(|order|, k requires 0 <= k < |order| =>
      assert order[k] in order;
      ranked[order[k]])
  }

  /** The denoted ladder with its placements in the order AmpCore encodes them. */
  function Reordered(i: LadderInput): Ladder
    requires WellFormed(i)
  {
    var l := Denotes(i);
    IndicesOfLexOrder(|l.ranked|);
    l.(ranked := Permuted(LexOrder(|l.ranked|), l.ranked))
  }

  lemma IndicesOfLexOrder(n: nat)
    ensures Indices(LexOrder(n), n)
  {
    forall j | j in LexOrder(n)
      ensures j < n
    {
      LexOrderMembers(n, j);
    }
  }

  lemma {:induction false} ArrayBytesOfSized(m: StringMap)
    ensures CoreArrayBytes(m) == CoreArrayBytes(Sized(m))
  {
    hide CoreDecode, PadLeft32;
    if m != [] {
      ArrayBytesOfSized(m[1..]);
      if |m[0].value| == ADDRESS_LENGTH {
        assert Sized(m)[1..] == Sized(m[1..]);
      } else {
        assert [] + CoreArrayBytes(m[1..]) == CoreArrayBytes(m[1..]);
        assert [] + Sized(m[1..]) == Sized(m[1..]);
      }
    }
  }

  lemma {:induction false} ArrayPreimageFront(a: Address, s: seq<Address>)
    ensures ArrayPreimage([a] + s) == PadLeft32(a) + ArrayPreimage(s)
  {
    hide PadLeft32;
    if s == [] {
      assert [a] + s == [a] && [a][..0] == [];
    } else {
      var m := |s| - 1;
      assert ([a] + s)[..m + 1] == [a] + s[..m];
      ArrayPreimageFront(a, s[..m]);
      assert PadLeft32(a) + (ArrayPreimage(s[..m]) + PadLeft32(s[m])) == PadLeft32(a) + ArrayPreimage(s[..m]) + PadLeft32(s[m]);
    }
  }

  lemma {:induction false} ArrayBytesOfEntries(order: seq<nat>, ranked: seq<string>)
    requires WellFormedAddresses(ranked) && Indices(order, |ranked|)
    ensures CoreArrayBytes(EntriesOf(order, ranked)) == ArrayPreimage(Permuted(order, Addresses(ranked)))
  {
    hide PadLeft32, CoreDecode, HexBytes, PlacementKey;
    var e := EntriesOf(order, ranked);
    if order != [] {
      assert order[0] in order && forall j | j in order[1..] :: j in order;
      ArrayBytesOfEntries(order[1..], ranked);
      assert e[1..] == EntriesOf(order[1..], ranked);
      var p := Permuted(order, Addresses(ranked));
      assert p == [p[0]] + Permuted(order[1..], Addresses(ranked));
      ArrayPreimageFront(p[0], Permuted(order[1..], Addresses(ranked)));
      CoreDecodesHex(ranked[order[0]]);
    }
  }

  lemma OnlyKeysWithout(m: StringMap, n: nat, k: string)
    requires OnlyKeys(m, n) && (k == "transcriptHash" || k == "sessionNonce")
    ensures !HasKey(m, k)
  {
    hide HasKey, PlacementKey;
    assert |"matchId"| == 7 && |"gameId"| == 6 && |"transcriptHash"| == 14 && |"sessionNonce"| == 12;
    forall j: nat | j < n
      ensures PlacementKey(j) != k
    {
      PlacementKeyIsNew(j);
    }
  }

  lemma NonceIsShort(n: nat)
    requires n <= U64_MAX
    ensures |Dec(n)| <= 20
  {
    TenToTheTwenty();
    DecLengthBound(n, 20, PowerOfTen(20));
  }

  lemma TenToTheTwenty()
    ensures PowerOfTen(20) == 1_0000_0000_0000_0000_0000
  {
    assert PowerOfTen(5) == 10_0000;
    assert PowerOfTen(10) == 10_0000 * 10_0000;
    assert PowerOfTen(15) == 10_0000 * 10_0000 * 10_0000;
  }

  /** The bytes AmpCore hashes for the array are the reference encoding of the placements listed in
      lexicographic order of their decimal indices. */
  lemma CoreArrayIsReordered(i: LadderInput)
    requires WellFormed(i)
    ensures CoreArrayBytes(CoreMessage(i)) == ArrayPreimage(Reordered(i).ranked)
  {
    hide Put, Dec, HasKey, Sized, OnlyKeys, CoreArrayBytes, ArrayPreimage, HexBytes, PutPlacements, Sorted;
    var n := |i.rankedPlacements|;
    var m := PutPlacements(HeadOfMessage(i), i.rankedPlacements, n);
    PlacementsInLexOrder(i, n);
    OnlyKeysWithout(m, n, "transcriptHash");
    OnlyKeysWithout(m, n, "sessionNonce");
    var m1 := Put(m, "transcriptHash", i.transcriptHash);
    SizedSkips(m, "transcriptHash", i.transcriptHash);
    assert |"transcriptHash"| == 14 && |"sessionNonce"| == 12;
    HasKeyAfterPut(m, "transcriptHash", i.transcriptHash, "sessionNonce");
    NonceIsShort(i.sessionNonce);
    SizedSkips(m1, "sessionNonce", Dec(i.sessionNonce));
    ArrayBytesOfSized(CoreMessage(i));
    ArrayBytesOfEntries(LexOrder(n), i.rankedPlacements);
  }

  lemma CoreMessageFields(i: LadderInput, q: string)
    requires q == "sessionNonce" || q == "transcriptHash" || q == "gameId" || q == "matchId"
    ensures GetOrEmpty(CoreMessage(i), q)
         == if q == "sessionNonce" then Dec(i.sessionNonce)
            else if q == "transcriptHash" then i.transcriptHash
            else if q == "gameId" then i.gameId else i.matchId
  {
    hide Put, Dec, Find, PutPlacements;
    assert |"matchId"| == 7 && |"gameId"| == 6 && |"transcriptHash"| == 14 && |"sessionNonce"| == 12;
    var n := |i.rankedPlacements|;
    var m1 := Put([], "matchId", i.matchId);
    var m := PutPlacements(HeadOfMessage(i), i.rankedPlacements, n);
    FindAfterPut([], "matchId", i.matchId, q);
    FindAfterPut(m1, "gameId", i.gameId, q);
    FindPastPlacements(HeadOfMessage(i), i.rankedPlacements, n, q);
    FindAfterPut(m, "transcriptHash", i.transcriptHash, q);
    FindAfterPut(Put(m, "transcriptHash", i.transcriptHash), "sessionNonce", Dec(i.sessionNonce), q);
  }

  lemma {:induction false} FindPastPlacements(m: StringMap, ranked: seq<string>, n: nat, q: string)
    requires n <= |ranked|
    requires q == "sessionNonce" || q == "transcriptHash" || q == "gameId" || q == "matchId"
    ensures Find(PutPlacements(m, ranked, n), q) == Find(m, q)
  {
    hide Find, PlacementKey;
    if n > 0 {
      FindPastPlacements(m, ranked, n - 1, q);
      PlacementKeyIsNew(n - 1);
      FindAfterPut(PutPlacements(m, ranked, n - 1), PlacementKey(n - 1), ranked[n - 1], q);
    }
  }

  lemma {:induction false} FindPlacement(m: StringMap, ranked: seq<string>, n: nat, k: nat)
    requires k < n <= |ranked|
    ensures Find(PutPlacements(m, ranked, n), PlacementKey(k)) == Some(ranked[k])
  {
    hide Find, Put, PlacementKey;
    FindAfterPut(PutPlacements(m, ranked, n - 1), PlacementKey(n - 1), ranked[n - 1], PlacementKey(k));
    if k < n - 1 {
      PlacementKeyLess(k, n - 1);
      FindPlacement(m, ranked, n - 1, k);
    }
  }

  /** Every placement is in the message, under its decimal index. */
  lemma MessageHoldsPlacements(i: LadderInput, k: nat)
    requires k < |i.rankedPlacements|
    ensures Find(CoreMessage(i), "placement" + Dec(k)) == Some(i.rankedPlacements[k])
  {
    hide Put, Dec, Find, PutPlacements, HeadOfMessage;
    var m := PutPlacements(HeadOfMessage(i), i.rankedPlacements, |i.rankedPlacements|);
    FindPlacement(HeadOfMessage(i), i.rankedPlacements, |i.rankedPlacements|, k);
    PlacementKeyIsNew(k);
    FindAfterPut(m, "transcriptHash", i.transcriptHash, PlacementKey(k));
    FindAfterPut(Put(m, "transcriptHash", i.transcriptHash), "sessionNonce", Dec(i.sessionNonce), PlacementKey(k));
  }

  lemma EncodedBytes32(h: Hash, name: string, text: string, message: StringMap)
    requires IsHexString(text) && |text| == 66 && GetOrEmpty(message, name) == text
    ensures EncodeField(h, Field(name, "bytes32"), message) == HexBytes(text)
  {
    CoreDecodesHex(text);
    assert HexBytes(text) + Zeros(0) == HexBytes(text);
  }

  lemma EncodedNonce(h: Hash, message: StringMap, nonce: nat)
    requires nonce <= U64_MAX && GetOrEmpty(message, "sessionNonce") == Dec(nonce)
    ensures EncodeField(h, Field("sessionNonce", "uint256"), message) == Word32(nonce)
  {
    DecIsUint64(nonce);
  }

  lemma FiveFields(h: Hash, message: StringMap, f: seq<Field>)
    requires |f| == 5
    ensures EncodeData(h, f, message)
         == EncodeField(h, f[0], message) + EncodeField(h, f[1], message) + EncodeField(h, f[2], message)
            + EncodeField(h, f[3], message) + EncodeField(h, f[4], message)
  {
    hide EncodeField;
    assert f[..4][..3] == f[..3] && f[..3][..2] == f[..2] && f[..2][..1] == f[..1] && f[..1][..0] == [];
    assert EncodeData(h, f[..1], message) == EncodeField(h, f[0], message);
    assert EncodeData(h, f[..2], message) == EncodeData(h, f[..1], message) + EncodeField(h, f[1], message);
    assert EncodeData(h, f[..3], message) == EncodeData(h, f[..2], message) + EncodeField(h, f[2], message);
    assert EncodeData(h, f[..4], message) == EncodeData(h, f[..3], message) + EncodeField(h, f[3], message);
  }

  /** The bytes AmpCore's `computeStructHash` hashes are the reference preimage of the reordered ladder. */
  lemma CoreStructIsReordered(h: Hash, i: LadderInput)
    requires WellFormed(i)
    ensures CoreStructPreimage(h, CoreLadder(i)) == Returned(StructPreimage(h, Reordered(i)))
  {
    hide EncodeField, EncodeData, CoreMessage, Raw, TypeString, LadderTypeString, ArrayPreimage, Word32, HexBytes, Permuted;
    var m, l := CoreMessage(i), Reordered(i);
    CoreMessageFields(i, "matchId");
    CoreMessageFields(i, "gameId");
    CoreMessageFields(i, "transcriptHash");
    CoreMessageFields(i, "sessionNonce");
    assert |"matchId"| == 7 && |"gameId"| == 6 && |"transcriptHash"| == 14 && |"sessionNonce"| == 12;
    EncodedBytes32(h, "matchId", i.matchId, m);
    EncodedBytes32(h, "gameId", i.gameId, m);
    EncodedBytes32(h, "transcriptHash", i.transcriptHash, m);
    EncodedNonce(h, m, i.sessionNonce);
    EncodedArray(h, i);
    FiveFields(h, m, LadderFields());
    LadderTypeStringBuilt();
    var t: seq<byte> := h(Raw(LadderTypeString()));
    LadderSdk.SixParts(t, l.matchId, l.gameId, h(ArrayPreimage(l.ranked)), l.transcript, Word32(l.nonce));
  }

  lemma EncodedArray(h: Hash, i: LadderInput)
    requires WellFormed(i)
    ensures EncodeField(h, Field("rankedPlacements", "address[]"), CoreMessage(i)) == h(ArrayPreimage(Reordered(i).ranked))
  {
    hide CoreMessage, CoreArrayBytes, ArrayPreimage, Reordered;
    CoreArrayIsReordered(i);
  }

  /** AmpCore's digest is the EIP-712 digest of the reordered ladder. */
  lemma CoreIsReordered(h: Hash, i: LadderInput)
    requires WellFormed(i)
    ensures CoreDigestPreimage(h, CoreLadder(i)) == Returned(LadderPreimage(h, Reordered(i)))
    ensures CoreDigest(h, CoreLadder(i)) == Returned(LadderDigest(h, Reordered(i)))
  {
    hide CoreStructPreimage, StructPreimage, CoreDecode, HexBytes, PadLeft32, DomainTypeString, Raw, Word32, Permuted;
    CoreStructIsReordered(h, i);
    CoreDecodesHex(i.contractAddress);
  }

  // ----- when the two implementations agree -----

  lemma OneDigit(n: nat)
    requires n < 10
    ensures Dec(n) == [DigitChar(n)]
  {
  }

  lemma {:induction false} InsertAtEnd(order: seq<nat>, k: nat)
    requires forall j | j in order :: !Less(Dec(k), Dec(j))
    ensures InsertIndex(order, k) == order + [k]
  {
    hide Less, Dec;
    if order != [] {
      assert order[0] in order && forall j | j in order[1..] :: j in order;
      InsertAtEnd(order[1..], k);
    }
  }

  /** Up to ten placements the lexicographic order is the numeric one. */
  lemma {:induction false} TenKeepOrder(n: nat)
    requires n <= 10
    ensures LexOrder(n) == seq(n, k => k)
  {
    if n > 0 {
      TenKeepOrder(n - 1);
      forall j | j in LexOrder(n - 1)
        ensures !Less(Dec(n - 1), Dec(j))
      {
        LexOrderMembers(n - 1, j);
        OneDigit(n - 1);
        OneDigit(j);
      }
      InsertAtEnd(LexOrder(n - 1), n - 1);
    }
  }

  lemma InsertPastThree(order: seq<nat>, k: nat)
    requires |order| >= 3
    requires !Less(Dec(k), Dec(order[0])) && !Less(Dec(k), Dec(order[1])) && !Less(Dec(k), Dec(order[2]))
    ensures InsertIndex(order, k)[..3] == order[..3]
  {
    hide Less, Dec;
    var t := order[1..];
    assert t[0] == order[1] && t[1..][0] == order[2];
    assert InsertIndex(t, k) == [order[1]] + InsertIndex(t[1..], k);
    assert InsertIndex(t[1..], k)[0] == order[2];
  }

  lemma TwoDigits(n: nat)
    requires 10 <= n
    ensures |Dec(n)| >= 2 && '1' <= Dec(n)[0] <= '9'
    ensures n > 10 ==> Less(Dec(10), Dec(n))
    ensures !Less(Dec(n), Dec(0)) && !Less(Dec(n), Dec(1))
  {
    LeadingDigit(n);
    OneDigit(0);
    OneDigit(1);
    assert Dec(10) == ['1', '0'];
    if n > 10 && Dec(n)[0] == '1' && Dec(n)[1] == '0' {
      assert Dec(n)[1..][1..] != [] && Dec(10)[1..][1..] == [];
    }
  }

  lemma {:induction false} LeadingDigit(n: nat)
    requires n >= 1
    ensures '1' <= Dec(n)[0] <= '9' && (n >= 10 ==> |Dec(n)| >= 2)
  {
    if n >= 10 {
      LeadingDigit(n / 10);
    }
  }

  /** Beyond ten placements the third array element AmpCore encodes is placement 10. */
  lemma {:induction false} ElevenBreakOrder(n: nat)
    requires n > 10
    ensures LexOrder(n)[..3] == [0, 1, 10]
  {
    if n == 11 {
      TenKeepOrder(10);
      InsertTen();
    } else {
      var order := LexOrder(n - 1);
      ElevenBreakOrder(n - 1);
      assert order[0] == order[..3][0] && order[1] == order[..3][1] && order[2] == order[..3][2];
      TwoDigits(n - 1);
      LessAsymmetric(Dec(10), Dec(n - 1));
      InsertPastThree(order, n - 1);
    }
  }

  lemma LessAsymmetric(a: string, b: string)
    requires Less(a, b)
    ensures !Less(b, a)
  {
    if Less(b, a) {
      LessTransitive(a, b, a);
      LessIrreflexive(a);
    }
  }

  lemma InsertTen()
    ensures InsertIndex(seq(10, k => k), 10)[..3] == [0, 1, 10]
  {
    var order: seq<nat> := seq(10, k => k);
    TwoDigits(10);
    OneDigit(2);
    assert Dec(10) == ['1', '0'];
    assert Less(Dec(10), Dec(2));
    assert order[1..][0] == 1 && order[1..][1..][0] == 2;
    assert InsertIndex(order[1..][1..], 10)[0] == 10;
    assert InsertIndex(order[1..], 10) == [1] + InsertIndex(order[1..][1..], 10);
  }

  /** Which well-formed inputs both implementations encode alike: those whose placements read the same
      in numeric and in lexicographic order of their indices. */
  ghost predicate OrderImmaterial(i: LadderInput)
    requires WellFormed(i)
  {
    var n := |i.rankedPlacements|;
    IndicesOfLexOrder(n);
    forall k | 0 <= k < n :: HexBytes(i.rankedPlacements[IndexAt(n, k)]) == HexBytes(i.rankedPlacements[k])
  }

  function IndexAt(n: nat, k: nat): (j: nat)
    requires k < n
    ensures j < n
  {
    IndicesOfLexOrder(n);
    assert LexOrder(n)[k] in LexOrder(n);
    LexOrder(n)[k]
  }

  lemma OrderImmaterialIs(i: LadderInput)
    requires WellFormed(i)
    ensures OrderImmaterial(i) <==> Reordered(i) == Denotes(i)
  {
    hide HexBytes, IsHexString, LexOrder;
    var n, l, r := |i.rankedPlacements|, Denotes(i).ranked, Reordered(i).ranked;
    forall k | 0 <= k < n
      ensures r[k] == HexBytes(i.rankedPlacements[IndexAt(n, k)]) && l[k] == HexBytes(i.rankedPlacements[k])
    {
    }
    if OrderImmaterial(i) {
      assert r == l;
    }
  }

  /** The two array preimages are the same bytes exactly when the order is immaterial, and then the two
      digests, and all bytes hashed on the way, agree. */
  lemma EncodersAgree(h: Hash, i: LadderInput)
    requires WellFormed(i)
    ensures LadderSdk.ArrayBytes(LadderSdk.Lines(LadderSdk.Join(i.rankedPlacements))) == Returned(CoreArrayBytes(CoreMessage(i)))
        <==> OrderImmaterial(i)
    ensures OrderImmaterial(i) ==>
      && LadderSdk.SdkStructPreimage(h, LadderSdk.SdkLadder(i)) == CoreStructPreimage(h, CoreLadder(i))
      && LadderSdk.SdkDigestPreimage(h, LadderSdk.SdkLadder(i)) == CoreDigestPreimage(h, CoreLadder(i))
      && LadderSdk.SdkDigest(h, LadderSdk.SdkLadder(i)) == CoreDigest(h, CoreLadder(i))
  {
    hide LadderSdk.ArrayBytes, LadderSdk.Lines, LadderSdk.Join, CoreArrayBytes, CoreMessage, ArrayPreimage, OrderImmaterial,
         LadderSdk.SdkStructPreimage, LadderSdk.SdkDigestPreimage, LadderSdk.SdkDigest, CoreStructPreimage, CoreDigestPreimage,
         CoreDigest, HexBytes, IsHexString, StructPreimage, LadderPreimage, LadderDigest, LexOrder;
    LadderSdk.ArrayIsReference(i);
    CoreArrayIsReordered(i);
    OrderImmaterialIs(i);
    if ArrayPreimage(Denotes(i).ranked) == ArrayPreimage(Reordered(i).ranked) {
      ArrayPreimageInjective(Denotes(i).ranked, Reordered(i).ranked);
    }
    LadderSdk.StructPreimageIsReference(h, i);
    CoreStructIsReordered(h, i);
    LadderSdk.SdkIsReference(h, i);
    CoreIsReordered(h, i);
  }

  lemma TenAreImmaterial(i: LadderInput)
    requires WellFormed(i) && |i.rankedPlacements| <= 10
    ensures OrderImmaterial(i)
  {
    hide HexBytes, IsHexString, LexOrder;
    TenKeepOrder(|i.rankedPlacements|);
  }

  /** Up to ten placements every well-formed ladder gets the same digest from both implementations. */
  lemma TenPlacementsAgree(h: Hash, i: LadderInput)
    requires WellFormed(i) && |i.rankedPlacements| <= 10
    ensures OrderImmaterial(i)
    ensures LadderSdk.SdkDigest(h, LadderSdk.SdkLadder(i)) == CoreDigest(h, CoreLadder(i))
  {
    hide LadderSdk.SdkDigest, CoreDigest, LadderSdk.SdkLadder, CoreLadder, LexOrder, LadderSdk.SdkStructPreimage,
         LadderSdk.SdkDigestPreimage, CoreStructPreimage, CoreDigestPreimage, WellFormed, OrderImmaterial;
    TenAreImmaterial(i);
    EncodersAgree(h, i);
  }

  lemma SmallNumbers(i: LadderInput)
    requires WellFormed(i)
    ensures Denotes(i).chainId == Reordered(i).chainId <= U64_MAX
    ensures Denotes(i).nonce == Reordered(i).nonce <= U64_MAX
    ensures |Denotes(i).ranked| == |Reordered(i).ranked| == |i.rankedPlacements|
  {
    hide HexBytes, IsHexString, LexOrder;
  }

  /** The two digests of a well-formed ladder agree exactly when the order is immaterial, unless a nested hash
      call of the two ladders is an explicit collision. */
  lemma DigestsAgreeIff(h: Hash, i: LadderInput)
    requires WellFormed(i)
    ensures (LadderSdk.SdkDigest(h, LadderSdk.SdkLadder(i)) == CoreDigest(h, CoreLadder(i)) <==> OrderImmaterial(i))
         || NestedCollision(h, Denotes(i), Reordered(i))
    ensures OrderImmaterial(i) ==> LadderSdk.SdkDigest(h, LadderSdk.SdkLadder(i)) == CoreDigest(h, CoreLadder(i))
  {
    hide LadderSdk.SdkDigest, CoreDigest, LadderSdk.SdkLadder, CoreLadder, WellFormed, Denotes, Reordered, LadderDigest,
         NestedCollision, OrderImmaterial;
    SmallNumbers(i);
    OrderImmaterialIs(i);
    LadderSdk.SdkIsReference(h, i);
    CoreIsReordered(h, i);
    if LadderDigest(h, Denotes(i)) == LadderDigest(h, Reordered(i)) {
      LadderDigestBinds(h, Denotes(i), Reordered(i));
    }
  }

  lemma ThirdIsEleventh(i: LadderInput)
    requires WellFormed(i) && |i.rankedPlacements| > 10
    ensures |Denotes(i).ranked| > 10 && |Reordered(i).ranked| > 10
    ensures Reordered(i).ranked[2] == Denotes(i).ranked[10]
  {
    hide HexBytes, IsHexString, LexOrder, Addresses;
    SmallNumbers(i);
    var order := LexOrder(|i.rankedPlacements|);
    ElevenBreakOrder(|i.rankedPlacements|);
    assert order[2] == order[..3][2];
  }

  /** In particular, from the eleventh placement on, distinct third and eleventh addresses make the digests
      differ, or exhibit such a collision. */
  lemma ElevenPlacementsDisagree(h: Hash, i: LadderInput)
    requires WellFormed(i) && |Denotes(i).ranked| > 10
    requires Denotes(i).ranked[2] != Denotes(i).ranked[10]
    ensures !OrderImmaterial(i)
    ensures LadderSdk.SdkDigest(h, LadderSdk.SdkLadder(i)) != CoreDigest(h, CoreLadder(i))
         || NestedCollision(h, Denotes(i), Reordered(i))
  {
    hide LadderSdk.SdkDigest, CoreDigest, LadderSdk.SdkLadder, CoreLadder, WellFormed, Denotes, Reordered,
         NestedCollision, OrderImmaterial;
    SmallNumbers(i);
    ThirdIsEleventh(i);
    OrderImmaterialIs(i);
    DigestsAgreeIff(h, i);
  }

  // ----- the AmpCore digest binds the ranked order too -----

  lemma PermutedInjective(n: nat, a: seq<Address>, b: seq<Address>)
    requires |a| == n && |b| == n && Indices(LexOrder(n), n)
    requires Permuted(LexOrder(n), a) == Permuted(LexOrder(n), b)
    ensures a == b
  {
    hide LexOrder;
    var order := LexOrder(n);
    forall j | 0 <= j < n
      ensures a[j] == b[j]
    {
      LexOrderMembers(n, j);
      var k :| 0 <= k < |order| && order[k] == j;
      assert Permuted(order, a)[k] == a[j] && Permuted(order, b)[k] == b[j];
    }
  }

  /** Reordering loses nothing: equal AmpCore digests of well-formed inputs mean the same ladder up to
      the letter case of the digits, or an explicit collision. */
  lemma CoreDigestBinds(h: Hash, i: LadderInput, j: LadderInput)
    requires WellFormed(i) && WellFormed(j)
    requires CoreDigest(h, CoreLadder(i)) == CoreDigest(h, CoreLadder(j))
    ensures LadderSdk.SameUpToCase(i, j) || NestedCollision(h, Reordered(i), Reordered(j))
  {
    hide CoreDigest, CoreLadder, NestedCollision, LadderDigest, WellFormed, Denotes, Reordered, LadderSdk.SameUpToCase;
    SmallNumbers(i);
    SmallNumbers(j);
    CoreIsReordered(h, i);
    CoreIsReordered(h, j);
    LadderDigestBinds(h, Reordered(i), Reordered(j));
    if Reordered(i) == Reordered(j) {
      ReorderedInjective(i, j);
      LadderSdk.DenotesUpToCase(i, j);
    }
  }

  lemma ReorderedInjective(i: LadderInput, j: LadderInput)
    requires WellFormed(i) && WellFormed(j) && Reordered(i) == Reordered(j)
    ensures Denotes(i) == Denotes(j)
  {
    hide HexBytes, IsHexString, LexOrder, Permuted, Addresses;
    SmallNumbers(i);
    SmallNumbers(j);
    var a, b := Denotes(i), Denotes(j);
    IndicesOfLexOrder(|a.ranked|);
    PermutedInjective(|a.ranked|, a.ranked, b.ranked);
    assert a == b;
  }
}
