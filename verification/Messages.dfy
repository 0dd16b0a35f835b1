/** The signed texts: EIP-191 preimages, exit certificates and commit preimages. */
module Messages {
  import opened Bytes
  import opened Numbers
  import opened Results
  import opened Hex

  // ----- EIP-191 -----

  /** What `eip191Digest` and `signPersonalSign` hash. */
  function Eip191Preimage(message: seq<byte>): seq<byte> {
    [0x19] + Raw("Ethereum Signed Message:\n") + Raw(Dec(|message|)) + message
  }

  lemma DecimalLengthFixes(m: nat, n: nat)
    requires m + |Dec(m)| == n + |Dec(n)|
    ensures m == n
  {
    if m < n {
      DecLengthGrows(m, n);
    } else {
      DecLengthGrows(n, m);
    }
  }

  /** The length prefix has no delimiter, yet different messages have different preimages. */
  lemma Eip191Injective(m: seq<byte>, n: seq<byte>)
    requires Eip191Preimage(m) == Eip191Preimage(n)
    ensures m == n
  {
    hide Raw;
    var p, d, e := [0x19] + Raw("Ethereum Signed Message:\n"), Raw(Dec(|m|)), Raw(Dec(|n|));
    assert |p + d + m| == |p + e + n|;
    DecimalLengthFixes(|m|, |n|);
    assert m == (p + d + m)[|p| + |d|..];
    assert n == (p + d + n)[|p| + |d|..];
  }

  /** An EIP-191 preimage never starts with the two bytes 0x19 0x01 of an EIP-712 preimage. */
  lemma Eip191IsNotEip712(m: seq<byte>, rest: seq<byte>)
    ensures Eip191Preimage(m) != [0x19, 0x01] + rest
  {
    assert Eip191Preimage(m)[1] == 'E' as int % 256;
  }

  /** The 26 bytes of the header that EIP-191 prescribes for personal messages. */
  function PersonalHeader(): seq<byte> {
    [0x19, 0x45, 0x74, 0x68, 0x65, 0x72, 0x65, 0x75, 0x6D, 0x20, 0x53, 0x69, 0x67, 0x6E, 0x65, 0x64, 0x20,
     0x4D, 0x65, 0x73, 0x73, 0x61, 0x67, 0x65, 0x3A, 0x0A]
  }

  lemma HeaderBytes()
    ensures |PersonalHeader()| == 26
    ensures [0x19] + Raw("Ethereum Signed Message:\n") == PersonalHeader()
  {
    assert Raw("Ethereum Signed Message:\n") == PersonalHeader()[1..];
  }

  /** The preimage is the header, the length of the message in decimal without leading zeros, the message. */
  lemma Eip191Layout(m: seq<byte>) returns (digits: string)
    ensures AllDigits(digits) && digits != [] && DecValue(digits) == |m| && (digits[0] == '0' <==> m == [])
    ensures var p := Eip191Preimage(m);
      && |p| == 26 + |digits| + |m|
      && p[..26] == PersonalHeader() && p[26..26 + |digits|] == Raw(digits) && p[26 + |digits|..] == m
  {
    hide Raw, PersonalHeader;
    digits := Dec(|m|);
    HeaderBytes();
    DecValueOfDec(|m|);
    DecHasNoLeadingZero(|m|);
    assert Eip191Preimage(m) == PersonalHeader() + Raw(digits) + m;
  }

  // ----- exit certificates -----

  /** `int`. */
  type Rank = q: int | -0x8000_0000 <= q < 0x8000_0000

  /** `uint64_t`. */
  type FrameCount = g: nat | g <= U64_MAX

  datatype ExitCert = ExitCert(matchId: string, rank: Rank, exitFrame: FrameCount, stateHash: string)

  predicate OneLine(s: string) {
    forall i | 0 <= i < |s| :: s[i] != '\n'
  }

  predicate IsLineStart(s: string) {
    s != [] && s[0] == '\n' && OneLine(s[1..])
  }

  function MatchLabel(): string {
    "AMP exit certificate" + "\n\n" + "Match: "
  }

  function RankLabel(): (s: string)
    ensures IsLineStart(s)
  {
    "\n" + "Rank: "
  }

  function FrameLabel(): (s: string)
    ensures IsLineStart(s)
  {
    "\n" + "Exit frame: "
  }

  function HashLabel(): (s: string)
    ensures IsLineStart(s)
  {
    "\n" + "State hash: "
  }

  function Closing(): string {
    "\n\n" + ClosingLine()
  }

  function BuildExitCertMessage(c: ExitCert): string {
    MatchLabel() + c.matchId + (RankLabel() + DecInt(c.rank) + (FrameLabel() + Dec(c.exitFrame)
    + (HashLabel() + c.stateHash + Closing())))
  }

  lemma FirstBreak(a: string, x: string, z: string)
    requires OneLine(a) && z == a + x && x != [] && x[0] == '\n'
    ensures |a| < |z| && z[|a|] == '\n' && forall i | 0 <= i < |a| :: z[i] != '\n'
    ensures a == z[..|a|] && x == z[|a|..]
  {
  }

  /** Two texts that start with one-line pieces followed by a line break agree piece by piece. */
  lemma CutAtNewline(a: string, x: string, b: string, y: string)
    requires OneLine(a) && OneLine(b) && a + x == b + y
    requires x != [] && x[0] == '\n' && y != [] && y[0] == '\n'
    ensures a == b && x == y
  {
    FirstBreak(a, x, a + x);
    FirstBreak(b, y, a + x);
  }

  lemma SamePrefix(p: string, x: string, y: string)
    requires p + x == p + y
    ensures x == y
  {
    assert x == (p + x)[|p|..] && y == (p + y)[|p|..];
  }

  lemma SameSuffix(x: string, y: string, q: string)
    requires x + q == y + q
    ensures x == y
  {
    assert |x| == |y|;
    assert x == (x + q)[..|x|] && y == (y + q)[..|y|];
  }

  lemma NumbersAreOneLine(rank: int, frame: nat)
    ensures OneLine(DecInt(rank)) && OneLine(Dec(frame))
  {
    var magnitude: nat := if rank < 0 then -rank else rank;
    assert AllDigits(Dec(magnitude)) && AllDigits(Dec(frame));
  }

  lemma PeelLine(tag: string, v: string, x: string, w: string, y: string)
    requires OneLine(v) && OneLine(w) && tag + v + x == tag + w + y
    requires x != [] && x[0] == '\n' && y != [] && y[0] == '\n'
    ensures v == w && x == y
  {
    assert tag + v + x == tag + (v + x) && tag + w + y == tag + (w + y);
    SamePrefix(tag, v + x, w + y);
    CutAtNewline(v, x, w, y);
  }

  /** The lines between the two free strings. */
  function MiddleLines(rank: Rank, frame: FrameCount): string {
    RankLabel() + DecInt(rank) + FrameLabel() + Dec(frame) + HashLabel()
  }

  /** Every 32-bit rank and every 64-bit frame makes a certificate. */
  lemma EveryCertificate(matchId: string, rank: int, exitFrame: nat, stateHash: string) returns (c: ExitCert)
    requires 0 - Pow2(31) <= rank < Pow2(31) && exitFrame < Pow2(64)
    ensures c.matchId == matchId && c.rank == rank && c.exitFrame == exitFrame && c.stateHash == stateHash
  {
    hide Pow2;
    SixtyFourBits();
    ThirtyOneBits();
    c := ExitCert(matchId, rank, exitFrame, stateHash);
  }

  lemma ThirtyOneBits()
    ensures Pow2(31) == 0x8000_0000
  {
    assert Pow2(7) == 128;
    hide Pow2;
    EightBits();
    Pow2Sum(8, 8);
    Pow2Sum(16, 8);
    Pow2Sum(24, 7);
  }

  function JoinLines(lines: seq<string>): string
    requires lines != []
  {
    if |lines| == 1 then lines[0] else lines[0] + "\n" + JoinLines(lines[1..])
  }

  lemma JoinStep(line: string, more: seq<string>)
    requires more != []
    ensures JoinLines([line] + more) == line + ("\n" + JoinLines(more))
  {
    assert ([line] + more)[1..] == more;
    assert line + "\n" + JoinLines(more) == line + ("\n" + JoinLines(more));
  }

  /** A labelled line and what follows it. */
  lemma LabelledLine(k: string, v: string, more: seq<string>)
    requires more != []
    ensures ("\n" + k) + v + ("\n" + JoinLines(more)) == "\n" + JoinLines([k + v] + more)
  {
    JoinStep(k + v, more);
    assert ("\n" + k) + v + ("\n" + JoinLines(more)) == "\n" + (k + v + ("\n" + JoinLines(more)));
  }

  lemma LabelTexts()
    ensures MatchLabel() == "AMP exit certificate" + ("\n" + ("" + ("\n" + "Match: ")))
    ensures RankLabel() == "\n" + "Rank: " && FrameLabel() == "\n" + "Exit frame: " && HashLabel() == "\n" + "State hash: "
    ensures Closing() == "\n" + ("" + ("\n" + ClosingLine()))
  {
    hide ClosingLine;
    TwoBreaks("AMP exit certificate", "Match: ");
    TwoBreaks("", ClosingLine());
    assert "" + "\n\n" + ClosingLine() == Closing();
  }

  lemma TwoBreaks(a: string, b: string)
    ensures a + "\n\n" + b == a + ("\n" + ("" + ("\n" + b)))
  {
  }

  function ClosingLine(): string {
    "This signature is free. It certifies your elimination and unlocks your reporting bond."
  }

  /** The text as its lines, for any two strings. */
  lemma ExitCertLines(c: ExitCert)
    ensures BuildExitCertMessage(c)
         == JoinLines(["AMP exit certificate", "", "Match: " + c.matchId, "Rank: " + DecInt(c.rank),
                       "Exit frame: " + Dec(c.exitFrame), "State hash: " + c.stateHash, "", ClosingLine()])
    ensures SignedValue(DecInt(c.rank)) == c.rank && DecValue(Dec(c.exitFrame)) == c.exitFrame
  {
    SignedValueOfDecInt(c.rank);
    DecValueOfDec(c.exitFrame);
    LabelTexts();
    hide Dec, DecInt, MatchLabel, RankLabel, FrameLabel, HashLabel, Closing, ClosingLine, JoinLines;
    LinesFrom("AMP exit certificate", "Match: ", c.matchId, "Rank: ", DecInt(c.rank), "Exit frame: ", Dec(c.exitFrame),
              "State hash: ", c.stateHash, ClosingLine());
  }

  lemma LinesFrom(t: string, m: string, id: string, k: string, r: string, f: string, n: string, h: string, sh: string, z: string)
    ensures (t + ("\n" + ("" + ("\n" + m)))) + id + (("\n" + k) + r + (("\n" + f) + n + (("\n" + h) + sh + ("\n" + ("" + ("\n" + z))))))
         == JoinLines([t, "", m + id, k + r, f + n, h + sh, "", z])
  {
    assert JoinLines([z]) == z;
    hide JoinLines;
    var l7, l6, l5, l4, l3 := ["", z], [h + sh, "", z], [f + n, h + sh, "", z], [k + r, f + n, h + sh, "", z], [m + id, k + r, f + n, h + sh, "", z];
    JoinStep("", [z]);
    assert [""] + [z] == l7;
    LabelledLine(h, sh, l7);
    assert [h + sh] + l7 == l6;
    LabelledLine(f, n, l6);
    assert [f + n] + l6 == l5;
    LabelledLine(k, r, l5);
    assert [k + r] + l5 == l4;
    JoinStep(m + id, l4);
    assert [m + id] + l4 == l3;
    JoinStep("", l3);
    JoinStep(t, [""] + l3);
    assert [t] + ([""] + l3) == [t, "", m + id, k + r, f + n, h + sh, "", z];
    var rest := "\n" + JoinLines(l4);
    assert (t + ("\n" + ("" + ("\n" + m)))) + id + rest == t + ("\n" + ("" + ("\n" + (m + id + rest))));
  }

  lemma CertPieces(c: ExitCert)
    ensures BuildExitCertMessage(c)
         == MatchLabel() + c.matchId + MiddleLines(c.rank, c.exitFrame) + c.stateHash + Closing()
  {
    hide Dec, DecInt, MatchLabel, RankLabel, FrameLabel, HashLabel, Closing;
    var h, t := HashLabel(), c.stateHash + Closing();
    var f, r := FrameLabel() + Dec(c.exitFrame), RankLabel() + DecInt(c.rank);
    assert MiddleLines(c.rank, c.exitFrame) == r + f + h;
    assert BuildExitCertMessage(c) == MatchLabel() + c.matchId + (r + (f + (h + t)));
    assert r + (f + (h + t)) == r + f + h + t;
  }

  lemma MiddleStart(rank: Rank, frame: FrameCount)
    ensures |MiddleLines(rank, frame)| >= 2 && MiddleLines(rank, frame)[0] == '\n' && MiddleLines(rank, frame)[1] == 'R'
  {
    hide Dec, DecInt, FrameLabel, HashLabel;
    assert RankLabel()[0] == '\n' && RankLabel()[1] == 'R';
  }

  /** No other line in the middle starts with 'R', and the middle does not end with a line break. */
  lemma OneRankLine(rank: Rank, frame: FrameCount, i: nat)
    requires 0 < i < |MiddleLines(rank, frame)|
    ensures MiddleLines(rank, frame)[i] == '\n'
        ==> i + 1 < |MiddleLines(rank, frame)| && MiddleLines(rank, frame)[i + 1] != 'R'
  {
    hide Dec, DecInt, RankLabel, FrameLabel, HashLabel;
    NumbersAreOneLine(rank, frame);
    LabelSeconds();
    var r, f, h := RankLabel() + DecInt(rank), FrameLabel() + Dec(frame), HashLabel();
    assert MiddleLines(rank, frame) == r + f + h;
    assert LineFrom(r, 1) && LineFrom(f, 1) && LineFrom(h, 1);
  }

  predicate LineFrom(s: string, k: nat) {
    forall i | k <= i < |s| :: s[i] != '\n'
  }

  lemma LabelSeconds()
    ensures |FrameLabel()| > 1 && FrameLabel()[1] == 'E' && |HashLabel()| > 1 && HashLabel()[1] == 'S'
  {
  }

  // ----- which certificates share their text -----

  /** The two texts are one: what follows `a`'s middle lines in `a`'s state hash, up to `b`'s middle lines, is
      the end of `b`'s match id. */
  predicate Twins(a: ExitCert, b: ExitCert, x: string) {
    b.matchId == a.matchId + MiddleLines(a.rank, a.exitFrame) + x && a.stateHash == x + MiddleLines(b.rank, b.exitFrame) + b.stateHash
  }

  lemma TwinsShareText(a: ExitCert, b: ExitCert, x: string)
    requires Twins(a, b, x)
    ensures BuildExitCertMessage(a) == BuildExitCertMessage(b) && a != b
  {
    hide MiddleLines, BuildExitCertMessage, MatchLabel, Closing;
    CertPieces(a);
    CertPieces(b);
    MiddleStart(a.rank, a.exitFrame);
    assert |b.matchId| > |a.matchId|;
  }

  /** With match ids of one length the texts agree only if all fields do. */
  lemma SameLengthIds(a: ExitCert, b: ExitCert)
    requires BuildExitCertMessage(a) == BuildExitCertMessage(b) && |a.matchId| == |b.matchId|
    ensures a == b
  {
    hide Dec, DecInt, MatchLabel, RankLabel, FrameLabel, HashLabel, Closing;
    NumbersAreOneLine(a.rank, a.exitFrame);
    NumbersAreOneLine(b.rank, b.exitFrame);
    var a3, b3 := HashLabel() + a.stateHash + Closing(), HashLabel() + b.stateHash + Closing();
    var a2, b2 := FrameLabel() + Dec(a.exitFrame) + a3, FrameLabel() + Dec(b.exitFrame) + b3;
    var a1, b1 := RankLabel() + DecInt(a.rank) + a2, RankLabel() + DecInt(b.rank) + b2;
    assert BuildExitCertMessage(a) == MatchLabel() + (a.matchId + a1);
    assert BuildExitCertMessage(b) == MatchLabel() + (b.matchId + b1);
    SamePrefix(MatchLabel(), a.matchId + a1, b.matchId + b1);
    var u := SplitAt(a.matchId, a1, b.matchId, b1);
    PeelLine(RankLabel(), DecInt(a.rank), a2, DecInt(b.rank), b2);
    PeelLine(FrameLabel(), Dec(a.exitFrame), a3, Dec(b.exitFrame), b3);
    DecIntInjective(a.rank, b.rank);
    DecInjective(a.exitFrame, b.exitFrame);
    SameSuffix(HashLabel() + a.stateHash, HashLabel() + b.stateHash, Closing());
    SamePrefix(HashLabel(), a.stateHash, b.stateHash);
  }

  /** Where two concatenations are equal, the longer first part starts with the shorter. */
  lemma SplitAt(a: string, x: string, b: string, y: string) returns (u: string)
    requires a + x == b + y && |a| <= |b|
    ensures b == a + u && x == u + y
  {
    u := b[|a|..];
    assert (b + y)[..|a|] == b[..|a|] && (a + x)[..|a|] == a;
    assert (b + y)[|a|..] == u + y && (a + x)[|a|..] == x;
  }

  /** Where `b`'s middle lines start after `a`'s do, they start after `a`'s have ended. */
  lemma MiddleWithin(a: ExitCert, b: ExitCert, s: string, u: string, y: string)
    requires MiddleLines(a.rank, a.exitFrame) + s == u + (MiddleLines(b.rank, b.exitFrame) + y) && u != []
    ensures |MiddleLines(a.rank, a.exitFrame)| <= |u|
  {
    hide MiddleLines;
    var m, n := MiddleLines(a.rank, a.exitFrame), MiddleLines(b.rank, b.exitFrame);
    MiddleStart(b.rank, b.exitFrame);
    assert (u + (n + y))[|u|] == '\n' && (u + (n + y))[|u| + 1] == 'R';
    assert |u| < |m| ==> (m + s)[|u|] == m[|u|];
    assert |u| + 1 < |m| ==> (m + s)[|u| + 1] == m[|u| + 1];
    if |u| < |m| {
      OneRankLine(a.rank, a.exitFrame, |u|);
    }
  }

  lemma ShorterIdIsTwin(a: ExitCert, b: ExitCert) returns (x: string)
    requires BuildExitCertMessage(a) == BuildExitCertMessage(b) && |a.matchId| < |b.matchId|
    ensures Twins(a, b, x)
  {
    hide MiddleLines, BuildExitCertMessage, MatchLabel, Closing;
    var m, n := MiddleLines(a.rank, a.exitFrame), MiddleLines(b.rank, b.exitFrame);
    CertPieces(a);
    CertPieces(b);
    SameSuffix(MatchLabel() + a.matchId + m + a.stateHash, MatchLabel() + b.matchId + n + b.stateHash, Closing());
    Regroup(MatchLabel(), a.matchId, m, a.stateHash);
    Regroup(MatchLabel(), b.matchId, n, b.stateHash);
    SamePrefix(MatchLabel(), a.matchId + (m + a.stateHash), b.matchId + (n + b.stateHash));
    var u := SplitAt(a.matchId, m + a.stateHash, b.matchId, n + b.stateHash);
    MiddleWithin(a, b, a.stateHash, u, b.stateHash);
    x := SplitAt(m, a.stateHash, u, n + b.stateHash);
    assert a.matchId + (m + x) == a.matchId + m + x && x + (n + b.stateHash) == x + n + b.stateHash;
  }

  lemma Regroup(p: string, a: string, m: string, s: string)
    ensures p + a + m + s == p + (a + (m + s))
  {
  }

  /** Two certificates share their text exactly when they are equal or twins. */
  lemma {:induction false} ExitCertSharesText(a: ExitCert, b: ExitCert)
    ensures BuildExitCertMessage(a) == BuildExitCertMessage(b)
       <==> a == b || (exists x :: Twins(a, b, x)) || (exists x :: Twins(b, a, x))
  {
    hide BuildExitCertMessage, Twins;
    if BuildExitCertMessage(a) == BuildExitCertMessage(b) {
      if |a.matchId| < |b.matchId| {
        var x := ShorterIdIsTwin(a, b);
      } else if |b.matchId| < |a.matchId| {
        var x := ShorterIdIsTwin(b, a);
      } else {
        SameLengthIds(a, b);
      }
    } else {
      forall x
        ensures !Twins(a, b, x) && !Twins(b, a, x)
      {
        if Twins(a, b, x) {
          TwinsShareText(a, b, x);
        }
        if Twins(b, a, x) {
          TwinsShareText(b, a, x);
        }
      }
    }
  }

  predicate MiddleIn(s: string, x: string, q: Rank, g: FrameCount, y: string) {
    s == x + MiddleLines(q, g) + y
  }

  /** The text contains a rank line, a frame line and the start of a hash line. */
  ghost predicate HasMiddle(s: string) {
    exists x, q, g, y :: MiddleIn(s, x, q, g, y)
  }

  /** The text of a certificate fixes its four fields exactly when neither its match id nor its state hash
      contains such lines. */
  lemma ExitCertAmbiguousIff(c: ExitCert)
    ensures (exists d :: d != c && BuildExitCertMessage(d) == BuildExitCertMessage(c))
       <==> HasMiddle(c.matchId) || HasMiddle(c.stateHash)
  {
    hide BuildExitCertMessage, MiddleLines;
    if d :| d != c && BuildExitCertMessage(d) == BuildExitCertMessage(c) {
      ExitCertSharesText(c, d);
      if x :| Twins(c, d, x) {
        assert MiddleIn(c.stateHash, x, d.rank, d.exitFrame, d.stateHash);
      } else {
        var x :| Twins(d, c, x);
        assert MiddleIn(c.matchId, d.matchId, d.rank, d.exitFrame, x);
      }
    }
    var m := MiddleLines(c.rank, c.exitFrame);
    if x, q, g, y :| MiddleIn(c.stateHash, x, q, g, y) {
      TwinsShareText(c, ExitCert(c.matchId + m + x, q, g, y), x);
    }
    if x, q, g, y :| MiddleIn(c.matchId, x, q, g, y) {
      TwinsShareText(ExitCert(x, q, g, y + m + c.stateHash), c, y);
    }
  }

  lemma MiddleHasBreak(s: string, x: string, q: Rank, g: FrameCount, y: string)
    requires MiddleIn(s, x, q, g, y)
    ensures !OneLine(s)
  {
    hide MiddleLines;
    MiddleStart(q, g);
    assert s[|x|] == '\n';
  }

  /** The text fixes all four fields of two certificates whose match ids, or whose state hashes, are one-line. */
  lemma ExitCertBinds(a: ExitCert, b: ExitCert)
    requires (OneLine(a.matchId) && OneLine(b.matchId)) || (OneLine(a.stateHash) && OneLine(b.stateHash))
    requires BuildExitCertMessage(a) == BuildExitCertMessage(b)
    ensures a == b
  {
    hide BuildExitCertMessage, MiddleLines, OneLine;
    ExitCertSharesText(a, b);
    if x :| Twins(a, b, x) {
      MiddleHasBreak(a.stateHash, x, b.rank, b.exitFrame, b.stateHash);
      MiddleHasBreak(b.matchId, a.matchId, a.rank, a.exitFrame, x);
    } else if x :| Twins(b, a, x) {
      MiddleHasBreak(b.stateHash, x, a.rank, a.exitFrame, a.stateHash);
      MiddleHasBreak(a.matchId, b.matchId, b.rank, b.exitFrame, x);
    }
  }

  // ----- commit preimages -----

  /** addr || stake as eight big-endian bytes || salt. */
  function CommitPreimage(addr: seq<byte>, stake: nat, salt: seq<byte>): seq<byte> {
    addr + BigEndian(stake, 8) + salt
  }

  method SdkCommitHash(h: Hash, wallet: string, stakeWei: nat, salt: seq<byte>) returns (r: Outcome<string>)
    requires stakeWei <= U64_MAX
    ensures SdkDecode(wallet).Thrown? ==> r == Thrown
    ensures SdkDecode(wallet).Returned? ==>
      r == Returned(ToHex(h(CommitPreimage(SdkDecode(wallet).value, stakeWei, salt))))
  {
    hide SdkDecode, ShiftBytes, BigEndian, ToHex;
    var addr := SdkFromHex(wallet);
    if addr.Thrown? {
      return Thrown;
    }
    var stakeBytes := new byte[8](i => 0);
    for i := 0 to 8
      invariant forall j: nat | 7 - i < j < 8 :: stakeBytes[j] == BigEndian(stakeWei, 8)[j]
    {
      BigEndianAt(stakeWei, 8, i);
      stakeBytes[7 - i] := ShiftBytes(stakeWei, i) % 256;
    }
    assert stakeBytes[..] == BigEndian(stakeWei, 8);
    var input := addr.value + stakeBytes[..] + salt;
    var text := SdkToHex(h(input));
    return Returned(text);
  }

  function FirstTwenty(b: seq<byte>): seq<byte> {
    if |b| > 20 then b[..20] else b
  }

  method CoreCommitHash(h: Hash, wallet: string, stakeWei: nat, salt: seq<byte>) returns (r: string)
    requires stakeWei <= U64_MAX
    ensures r == ToHex(h(CommitPreimage(FirstTwenty(CoreDecode(wallet)), stakeWei, salt)))
  {
    hide CoreDecode, ShiftBytes, BigEndian, ToHex;
    var addr := CoreFromHex(wallet);
    if |addr| > 20 {
      addr := addr[..20];
    }
    var input := addr;
    var i := 7;
    while i >= 0
      invariant -1 <= i <= 7
      invariant input == addr + BigEndian(stakeWei, 8)[..7 - i]
    {
      BigEndianAt(stakeWei, 8, i);
      var stake := BigEndian(stakeWei, 8);
      assert stake[..7 - i] + [stake[7 - i]] == stake[..8 - i];
      input := input + [ShiftBytes(stakeWei, i) % 256];
      i := i - 1;
    }
    assert BigEndian(stakeWei, 8)[..8] == BigEndian(stakeWei, 8);
    input := input + salt;
    r := CoreToHex(h(input));
  }

  /** The address, the stake as a 64-bit big-endian number, the salt. */
  lemma CommitLayout(addr: seq<byte>, stake: nat, salt: seq<byte>)
    requires stake <= U64_MAX
    ensures var p, n := CommitPreimage(addr, stake, salt), |addr|;
      && |p| == n + 8 + |salt|
      && p[..n] == addr && BigEndianValue(p[n..n + 8]) == stake && p[n + 8..] == salt
  {
    hide BigEndian, BigEndianValue;
    Uint64FitsEightBytes(stake);
    BigEndianRoundTrip(stake, 8);
    assert CommitPreimage(addr, stake, salt)[|addr|..|addr| + 8] == BigEndian(stake, 8);
  }

  /** For addresses of one length, 20 bytes in particular, the preimage fixes all three parts. */
  lemma CommitPreimageInjective(a: seq<byte>, s: nat, salt: seq<byte>, b: seq<byte>, t: nat, pepper: seq<byte>)
    requires |a| == |b| && s <= U64_MAX && t <= U64_MAX
    requires CommitPreimage(a, s, salt) == CommitPreimage(b, t, pepper)
    ensures a == b && s == t && salt == pepper
  {
    var x, y := CommitPreimage(a, s, salt), CommitPreimage(b, t, pepper);
    assert a == x[..|a|] && b == y[..|a|];
    assert BigEndian(s, 8) == x[|a|..|a| + 8] && BigEndian(t, 8) == y[|a|..|a| + 8];
    assert salt == x[|a| + 8..] && pepper == y[|a| + 8..];
    Uint64FitsEightBytes(s);
    Uint64FitsEightBytes(t);
    BigEndianRoundTrip(s, 8);
    BigEndianRoundTrip(t, 8);
  }

  /** The two implementations build the same preimage exactly for addresses of at most 20 bytes; of a longer
      one AmpCore keeps the first 20. */
  lemma CommitPreimagesAgree(wallet: string, stake: nat, salt: seq<byte>)
    requires IsHexString(wallet)
    ensures SdkDecode(wallet) == Returned(HexBytes(wallet)) && CoreDecode(wallet) == HexBytes(wallet)
    ensures CommitPreimage(SdkDecode(wallet).value, stake, salt)
            == CommitPreimage(FirstTwenty(CoreDecode(wallet)), stake, salt)
        <==> |HexBytes(wallet)| <= 20
    ensures FirstTwenty(CoreDecode(wallet)) <= HexBytes(wallet)
    ensures |HexBytes(wallet)| > 20 ==> |FirstTwenty(CoreDecode(wallet))| == 20
  {
    SdkDecodesHex(wallet);
    CoreDecodesHex(wallet);
    var b := HexBytes(wallet);
    assert |CommitPreimage(b, stake, salt)| == |b| + 8 + |salt|;
    assert |CommitPreimage(FirstTwenty(b), stake, salt)| == |FirstTwenty(b)| + 8 + |salt|;
  }

  ghost predicate Collision(h: Hash, x: seq<byte>, y: seq<byte>) {
    x != y && h(x) == h(y)
  }

  /** Equal commit hashes mean equal commitments, or exhibit a collision of the hash function. */
  lemma CommitBinds(h: Hash, a: seq<byte>, s: nat, salt: seq<byte>, b: seq<byte>, t: nat, pepper: seq<byte>)
    requires |a| == |b| && s <= U64_MAX && t <= U64_MAX
    requires ToHex(h(CommitPreimage(a, s, salt))) == ToHex(h(CommitPreimage(b, t, pepper)))
    ensures (a == b && s == t && salt == pepper)
         || Collision(h, CommitPreimage(a, s, salt), CommitPreimage(b, t, pepper))
  {
    DecodeOfEncode(h(CommitPreimage(a, s, salt)));
    DecodeOfEncode(h(CommitPreimage(b, t, pepper)));
    if CommitPreimage(a, s, salt) == CommitPreimage(b, t, pepper) {
      CommitPreimageInjective(a, s, salt, b, t, pepper);
    }
  }
}
