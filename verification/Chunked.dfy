/** The chunked-transfer decoding loop (section 7.1 of RFC 9112). */
module Chunked {
  import opened Bytes
  import opened Numbers
  import opened Results
  import opened Text

  const CRLF := "\r\n"

  // ----- the loop -----

  /** One turn: it stops, or appends some text and moves the cursor. */
  datatype Turn = Stop | Take(text: string, next: nat)

  function Substr(s: string, at: nat, n: nat): string
    requires at <= |s|
  {
    if at + n <= |s| then s[at..at + n] else s[at..]
  }

  /** `lineEnd + 2 + chunkSize + 2` in 64 bits. */
  function NextPos(lineEnd: nat, size: nat): nat {
    (lineEnd + 2 + size + 2) % (U64_MAX + 1)
  }

  function TakeTurn(body: string, pos: nat): Turn {
    match FindFrom(body, CRLF, pos)
    case None => Stop
    case Some(lineEnd) =>
      match StoUll(body[pos..lineEnd])
      case Thrown => Stop
      case Returned(size) =>
        if size == 0 then Stop else Take(Substr(body, lineEnd + 2, size), NextPos(lineEnd, size))
  }

  /** The whole body, or where the loop is after some turns. */
  datatype Result = Body(text: string) | Running(text: string, pos: nat)

  function Prefixed(text: string, r: Result): Result {
    match r
    case Body(t) => Body(text + t)
    case Running(t, pos) => Running(text + t, pos)
  }

  /** The loop from the cursor on, for at most `turns` turns; it may move the cursor backwards. */
  function Run(body: string, pos: nat, turns: nat): Result
    decreases turns
  {
    if pos >= |body| then Body([])
    else if turns == 0 then Running([], pos)
    else
      match TakeTurn(body, pos)
      case Stop => Body([])
      case Take(text, next) => Prefixed(text, Run(body, next, turns - 1))
  }

  method Dechunk(bodyRaw: string, turns: nat) returns (r: Result)
    ensures r == Run(bodyRaw, 0, turns)
  {
    hide FindFrom, StoUll, Run, Prefixed, NextPos, Substr;
    var dechunked := "";
    var pos: nat := 0;
    var left := turns;
    PrefixedNothing(Run(bodyRaw, 0, turns));
    while pos < |bodyRaw| && left > 0
      invariant Run(bodyRaw, 0, turns) == Prefixed(dechunked, Run(bodyRaw, pos, left))
      decreases left
    {
      RunMore(dechunked, bodyRaw, pos, left);
      var lineEnd := FindFrom(bodyRaw, CRLF, pos);
      if lineEnd.None? {
        return Body(dechunked);
      }
      var size := StoUll(bodyRaw[pos..lineEnd.value]);
      if size.Thrown? {
        return Body(dechunked);
      }
      var chunkSize := size.value;
      if chunkSize == 0 {
        return Body(dechunked);
      }
      dechunked := dechunked + Substr(bodyRaw, lineEnd.value + 2, chunkSize);
      pos := NextPos(lineEnd.value, chunkSize);
      left := left - 1;
    }
    RunEnd(dechunked, bodyRaw, pos, left);
    return if pos >= |bodyRaw| then Body(dechunked) else Running(dechunked, pos);
  }

  lemma RunMore(done: string, body: string, pos: nat, turns: nat)
    requires pos < |body| && turns > 0
    ensures Prefixed(done, Run(body, pos, turns))
         == match TakeTurn(body, pos)
            case Stop => Body(done)
            case Take(text, next) => Prefixed(done + text, Run(body, next, turns - 1))
  {
    hide TakeTurn;
    var turn := TakeTurn(body, pos);
    if turn.Stop? {
      assert done + [] == done;
    } else {
      PrefixedMore(done, turn.text, Run(body, turn.next, turns - 1));
    }
  }

  lemma RunEnd(done: string, body: string, pos: nat, turns: nat)
    requires pos >= |body| || turns == 0
    ensures Prefixed(done, Run(body, pos, turns)) == if pos >= |body| then Body(done) else Running(done, pos)
  {
    assert done + [] == done;
  }

  lemma PrefixedNothing(r: Result)
    ensures Prefixed([], r) == r
  {
    assert [] + r.text == r.text;
  }

  lemma PrefixedMore(a: string, b: string, r: Result)
    ensures Prefixed(a, Prefixed(b, r)) == Prefixed(a + b, r)
  {
    assert a + (b + r.text) == a + b + r.text;
  }

  // ----- when the loop ends -----

  /** The cursor after `k` turns, if the loop is still running then. */
  function CursorFrom(body: string, pos: nat, k: nat): (c: Option<nat>)
    ensures c.Some? ==> c.value < |body|
    decreases k
  {
    if pos >= |body| then None
    else if k == 0 then Some(pos)
    else
      match TakeTurn(body, pos)
      case Stop => None
      case Take(_, next) => CursorFrom(body, next, k - 1)
  }

  lemma {:induction false} RunIsAtCursor(body: string, pos: nat, k: nat)
    ensures Run(body, pos, k).Running? <==> CursorFrom(body, pos, k).Some?
    ensures Run(body, pos, k).Running? ==> CursorFrom(body, pos, k) == Some(Run(body, pos, k).pos)
    decreases k
  {
    hide TakeTurn;
    if pos < |body| && k > 0 && TakeTurn(body, pos).Take? {
      RunIsAtCursor(body, TakeTurn(body, pos).next, k - 1);
    }
  }

  /** A loop that has ended does not change with more turns. */
  lemma {:induction false} RunStable(body: string, pos: nat, k: nat, more: nat)
    requires Run(body, pos, k).Body? && k <= more
    ensures Run(body, pos, more) == Run(body, pos, k)
    decreases k
  {
    hide TakeTurn;
    if pos < |body| && TakeTurn(body, pos).Take? {
      RunStable(body, TakeTurn(body, pos).next, k - 1, more - 1);
    }
  }

  /** The cursor after i + k turns is the one k turns after the i-th. */
  lemma {:induction false} CursorsCompose(body: string, pos: nat, i: nat, k: nat)
    ensures CursorFrom(body, pos, i + k)
         == match CursorFrom(body, pos, i) { case None => None case Some(p) => CursorFrom(body, p, k) }
    decreases i
  {
    hide TakeTurn;
    if pos < |body| && i > 0 && TakeTurn(body, pos).Take? {
      CursorsCompose(body, TakeTurn(body, pos).next, i - 1, k);
    }
  }

  function Cursor(body: string, k: nat): Option<nat> {
    CursorFrom(body, 0, k)
  }

  /** The loop is at one place after `i` and again after `j` turns. */
  predicate Revisits(body: string, i: nat, j: nat) {
    i < j && Cursor(body, i).Some? && Cursor(body, i) == Cursor(body, j)
  }

  ghost predicate Endless(body: string) {
    forall turns: nat :: Run(body, 0, turns).Running?
  }

  lemma {:induction false} RevisitNeverEnds(body: string, i: nat, j: nat, k: nat)
    requires Revisits(body, i, j)
    ensures Cursor(body, k).Some?
    decreases k
  {
    hide CursorFrom;
    if k <= j {
      CursorsCompose(body, 0, k, j - k);
    } else {
      var p := Cursor(body, i).value;
      CursorsCompose(body, 0, j, k - j);
      CursorsCompose(body, 0, i, k - j);
      RevisitNeverEnds(body, i, j, i + (k - j));
    }
  }

  /** More than n numbers below n are not all different. */
  lemma {:induction false} Pigeonhole(s: seq<nat>, n: nat) returns (i: nat, j: nat)
    requires |s| > n && forall k | 0 <= k < |s| :: s[k] < n
    ensures i < j < |s| && s[i] == s[j]
    decreases n
  {
    var last := |s| - 1;
    if k :| 0 <= k < last && s[k] == s[last] {
      return k, last;
    }
    // the last number occurs once: n - 1 takes its place among the others
    var t := seq(last, k requires 0 <= k < last => if s[k] == n - 1 then s[last] else s[k]);
    i, j := Pigeonhole(t, n - 1);
  }

  lemma RunningCursors(body: string, k: nat, n: nat)
    requires Cursor(body, n).Some? && k <= n
    ensures Cursor(body, k).Some?
  {
    hide CursorFrom;
    CursorsCompose(body, 0, k, n - k);
  }

  /** The loop ends within |body| turns, or comes back to a place it has been at and never ends. */
  lemma EndlessIff(body: string)
    ensures Endless(body) <==> exists i: nat, j: nat :: Revisits(body, i, j)
    ensures Endless(body) <==> Run(body, 0, |body|).Running?
  {
    hide Run, CursorFrom;
    RunIsAtCursor(body, 0, |body|);
    if Run(body, 0, |body|).Running? {
      forall k: nat | k <= |body|
        ensures Cursor(body, k).Some?
      {
        RunningCursors(body, k, |body|);
      }
      var i, j := Pigeonhole(seq(|body| + 1, k requires 0 <= k <= |body| => Cursor(body, k).value), |body|);
      assert Revisits(body, i, j);
    }
    if i: nat, j: nat :| Revisits(body, i, j) {
      forall turns: nat
        ensures Run(body, 0, turns).Running?
      {
        RevisitNeverEnds(body, i, j, turns);
        RunIsAtCursor(body, 0, turns);
      }
    }
  }

  // ----- when the cursor moves backwards -----

  /** Where the cursor would go without wrapping. */
  function Unwrapped(body: string, pos: nat): nat
    requires pos <= |body| && TakeTurn(body, pos).Take?
  {
    var lineEnd := FindFrom(body, CRLF, pos).value;
    lineEnd + 4 + StoUll(body[pos..lineEnd]).value
  }

  /** A turn moves the cursor forward exactly when the new position does not wrap 64 bits, or wraps to
      somewhere still past the cursor. */
  lemma ProgressIff(body: string, pos: nat)
    requires |body| < U64_MAX && pos < |body| && TakeTurn(body, pos).Take?
    ensures TakeTurn(body, pos).next > pos
       <==> Unwrapped(body, pos) <= U64_MAX || Unwrapped(body, pos) - (U64_MAX + 1) > pos
  {
    hide StoUll, FindFrom;
    var sum := Unwrapped(body, pos);
    assert sum < 2 * (U64_MAX + 1);
    assert TakeTurn(body, pos).next == if sum <= U64_MAX then sum else sum - (U64_MAX + 1);
  }

  predicate WrapsBack(body: string, pos: nat) {
    && pos < |body| && TakeTurn(body, pos).Take?
    && Unwrapped(body, pos) > U64_MAX && Unwrapped(body, pos) - (U64_MAX + 1) <= pos
  }

  ghost predicate Reaches(body: string, pos: nat) {
    exists k: nat :: Cursor(body, k) == Some(pos)
  }

  /** The turn after `k` others, if there is one, moves the cursor forward. */
  predicate MovesForward(body: string, k: nat) {
    Cursor(body, k).Some? && TakeTurn(body, Cursor(body, k).value).Take?
    ==> TakeTurn(body, Cursor(body, k).value).next > Cursor(body, k).value
  }

  /** Every turn of a run moves the cursor forward exactly when no size the loop reads wraps it back. */
  lemma ForwardIff(body: string)
    requires |body| < U64_MAX
    ensures (forall k: nat :: MovesForward(body, k)) <==> !exists p: nat :: Reaches(body, p) && WrapsBack(body, p)
  {
    hide TakeTurn, CursorFrom, Unwrapped;
    if p: nat :| Reaches(body, p) && WrapsBack(body, p) {
      var k: nat :| Cursor(body, k) == Some(p);
      ProgressIff(body, p);
      assert !MovesForward(body, k);
    } else {
      forall k: nat
        ensures MovesForward(body, k)
      {
        if Cursor(body, k).Some? && TakeTurn(body, Cursor(body, k).value).Take? {
          var p := Cursor(body, k).value;
          assert Reaches(body, p) && !WrapsBack(body, p);
          ProgressIff(body, p);
        }
      }
    }
  }

  lemma CursorStep(body: string, k: nat)
    requires Cursor(body, k + 1).Some?
    ensures Cursor(body, k).Some? && TakeTurn(body, Cursor(body, k).value).Take?
    ensures Cursor(body, k + 1).value == TakeTurn(body, Cursor(body, k).value).next
  {
    hide TakeTurn;
    CursorsCompose(body, 0, k, 1);
  }

  lemma {:induction false} CursorsGrow(body: string, k: nat)
    requires Cursor(body, k).Some? && forall i: nat :: MovesForward(body, i)
    ensures Cursor(body, k).value >= k
  {
    hide TakeTurn, CursorFrom;
    if k > 0 {
      CursorStep(body, k - 1);
      CursorsGrow(body, k - 1);
      assert MovesForward(body, k - 1);
    }
  }

  /** If no size the loop reads wraps the cursor back, the loop ends within |body| turns. */
  lemma {:induction false} EndsUnlessWrappingBack(body: string)
    requires |body| < U64_MAX && !exists p: nat :: Reaches(body, p) && WrapsBack(body, p)
    ensures Run(body, 0, |body|).Body? && !Endless(body)
  {
    hide Run, CursorFrom, MovesForward, WrapsBack;
    ForwardIff(body);
    RunIsAtCursor(body, 0, |body|);
    EndlessIff(body);
    if Cursor(body, |body|).Some? {
      CursorsGrow(body, |body|);
    }
  }

  // ----- finding the end of a line -----

  lemma Between(a: string, b: string, c: string)
    ensures (a + b + c)[|a|..|a| + |b|] == b
  {
  }

  predicate CrlfFree(s: string) {
    forall i | 0 <= i < |s| - 1 :: s[i] != '\r' || s[i + 1] != '\n'
  }

  lemma {:induction false} FindLineFrom(pre: string, line: string, rest: string, k: nat)
    requires CrlfFree(line) && k <= |line|
    ensures FindFrom(pre + line + CRLF + rest, CRLF, |pre| + k) == Some(|pre| + |line|)
    decreases |line| - k
  {
    var s := pre + line + CRLF + rest;
    var i := |pre| + k;
    if k == |line| {
      assert s[i..i + 2] == CRLF;
    } else {
      assert s[i] == line[k] && s[i + 1] == if k + 1 < |line| then line[k + 1] else '\r';
      assert s[i..i + 2] != CRLF by {
        assert s[i..i + 2][0] == s[i] && s[i..i + 2][1] == s[i + 1];
      }
      FindLineFrom(pre, line, rest, k + 1);
    }
  }

  lemma FindLine(pre: string, line: string, rest: string)
    requires CrlfFree(line)
    ensures FindFrom(pre + line + CRLF + rest, CRLF, |pre|) == Some(|pre| + |line|)
  {
    FindLineFrom(pre, line, rest, 0);
  }

  lemma {:induction false} NoLineFrom(s: string, i: nat)
    requires forall k | i <= k < |s| - 1 :: s[k] != '\r' || s[k + 1] != '\n'
    ensures FindFrom(s, CRLF, i) == None
    decreases |s| - i
  {
    if i + 2 <= |s| {
      assert s[i..i + 2][0] == s[i] && s[i..i + 2][1] == s[i + 1];
      NoLineFrom(s, i + 1);
    }
  }

  // ----- chunked bodies -----

  /** A size in hexadecimal (any case, leading zeros allowed), an extension, and the data. */
  datatype Chunk = Chunk(size: string, extension: string, data: string)

  predicate IsSizeLine(size: string, extension: string) {
    && size != [] && (forall i | 0 <= i < |size| :: IsHexDigit(size[i]))
    && CrlfFree(size + extension)
    && (extension != [] ==> extension[0] == ';' || extension[0] == ' ' || extension[0] == '\t')
  }

  predicate IsChunk(c: Chunk) {
    IsSizeLine(c.size, c.extension) && c.data != [] && HexValue(c.size) == |c.data|
  }

  /** The zero-size chunk line and whatever follows it: trailers and the final line break. */
  datatype Last = Last(size: string, extension: string, trailer: string)

  predicate IsLast(l: Last) {
    IsSizeLine(l.size, l.extension) && HexValue(l.size) == 0
  }

  predicate AreChunks(chunks: seq<Chunk>) {
    forall i | 0 <= i < |chunks| :: IsChunk(chunks[i])
  }

  function ChunkText(c: Chunk): string {
    c.size + c.extension + CRLF + c.data + CRLF
  }

  function Encode(chunks: seq<Chunk>, last: Last): string {
    if chunks == [] then last.size + last.extension + CRLF + last.trailer
    else ChunkText(chunks[0]) + Encode(chunks[1..], last)
  }

  function Payload(chunks: seq<Chunk>): string {
    if chunks == [] then [] else chunks[0].data + Payload(chunks[1..])
  }

  /** What `std::stoull` reads on a size line. */
  lemma SizeOfLine(size: string, extension: string)
    requires IsSizeLine(size, extension) && HexValue(size) <= U64_MAX
    ensures StoUll(size + extension) == Returned(HexValue(size))
  {
    SubjectOfDigits(size, extension);
  }

  /** What a turn does at any line that is there in full: whatever `std::stoull` makes of the line, the cursor
      is counted modulo 2^64. */
  lemma TurnIs(pre: string, line: string, rest: string)
    requires CrlfFree(line)
    ensures TakeTurn(pre + line + CRLF + rest, |pre|)
         == match StoUll(line)
            case Thrown => Stop
            case Returned(n) =>
              if n == 0 then Stop
              else Take(if n <= |rest| then rest[..n] else rest, (|pre| + |line| + 4 + n) % Pow2(64))
  {
    hide FindFrom, StoUll, Pow2;
    SixtyFourBits();
    var body := pre + line + CRLF + rest;
    FindLine(pre, line, rest);
    assert body == pre + line + (CRLF + rest);
    Between(pre, line, CRLF + rest);
    if StoUll(line).Returned? {
      SubstrAfter(pre + line + CRLF, rest, StoUll(line).value);
    }
  }

  /** Without a line end from the cursor on the loop stops. */
  lemma TurnWithoutEnd(body: string, pos: nat)
    requires pos <= |body| && CrlfFree(body[pos..])
    ensures TakeTurn(body, pos) == Stop
  {
    hide FindFrom;
    forall k | pos <= k < |body| - 1
      ensures body[k] != '\r' || body[k + 1] != '\n'
    {
      assert body[pos..][k - pos] == body[k] && body[pos..][k - pos + 1] == body[k + 1];
    }
    NoLineFrom(body, pos);
  }

  /** What a turn does at a size line that is there in full, `rest` being what follows the line. */
  lemma {:induction false} TurnAtLine(pre: string, size: string, extension: string, rest: string)
    requires IsSizeLine(size, extension) && HexValue(size) <= U64_MAX
    ensures TakeTurn(pre + (size + extension) + CRLF + rest, |pre|)
         == if HexValue(size) == 0 then Stop
            else Take(Substr(rest, 0, HexValue(size)), NextPos(|pre| + |size + extension|, HexValue(size)))
  {
    hide FindFrom, StoUll, IsSizeLine, HexValue, NextPos;
    var line := size + extension;
    var body := pre + line + CRLF + rest;
    LineFacts(size, extension);
    FindLine(pre, line, rest);
    assert body == pre + line + (CRLF + rest);
    Between(pre, line, CRLF + rest);
    SizeOfLine(size, extension);
    SubstrAfter(pre + line + CRLF, rest, HexValue(size));
  }

  lemma SubstrAfter(pre: string, rest: string, n: nat)
    ensures Substr(pre + rest, |pre|, n) == Substr(rest, 0, n)
  {
    assert (pre + rest)[|pre|..] == rest;
    if n <= |rest| {
      assert (pre + rest)[|pre|..|pre| + n] == rest[..n];
    }
  }

  /** At the start of a chunk that is there in full the loop takes its data and moves past it. */
  lemma TurnAtChunk(pre: string, c: Chunk, rest: string)
    requires IsChunk(c) && |pre + ChunkText(c) + rest| <= U64_MAX
    ensures TakeTurn(pre + ChunkText(c) + rest, |pre|) == Take(c.data, |pre| + |ChunkText(c)|)
  {
    hide TakeTurn, IsSizeLine, HexValue;
    var after := c.data + CRLF + rest;
    ChunkSplit(pre, c, rest);
    TurnAtLine(pre, c.size, c.extension, after);
    assert after[0..|c.data|] == c.data;
  }

  lemma ChunkSplit(pre: string, c: Chunk, rest: string)
    ensures pre + ChunkText(c) + rest == pre + (c.size + c.extension) + CRLF + (c.data + CRLF + rest)
  {
  }

  lemma LineFacts(size: string, extension: string)
    requires IsSizeLine(size, extension)
    ensures CrlfFree(size + extension) && forall i | 0 <= i < |size| :: IsHexDigit(size[i])
  {
  }

  lemma TurnAtLast(pre: string, last: Last)
    requires IsLast(last)
    ensures TakeTurn(pre + (last.size + last.extension + CRLF + last.trailer), |pre|) == Stop
  {
    hide TakeTurn, IsSizeLine, HexValue;
    TurnAtLine(pre, last.size, last.extension, last.trailer);
    assert pre + (last.size + last.extension + CRLF + last.trailer) == pre + (last.size + last.extension) + CRLF + last.trailer;
  }

  lemma {:induction false} RunChunks(pre: string, chunks: seq<Chunk>, last: Last, turns: nat)
    requires AreChunks(chunks) && IsLast(last) && |pre + Encode(chunks, last)| <= U64_MAX && turns > |chunks|
    ensures Run(pre + Encode(chunks, last), |pre|, turns) == Body(Payload(chunks))
    decreases |chunks|
  {
    hide TakeTurn, ChunkText, IsChunk, IsLast;
    if chunks == [] {
      TurnAtLast(pre, last);
    } else {
      var c, rest := chunks[0], Encode(chunks[1..], last);
      var body := pre + ChunkText(c) + rest;
      assert pre + Encode(chunks, last) == body;
      TurnAtChunk(pre, c, rest);
      ChunkIsLong(c);
      RunChunks(pre + ChunkText(c), chunks[1..], last, turns - 1);
    }
  }

  lemma ChunkIsLong(c: Chunk)
    ensures |ChunkText(c)| >= 4
  {
  }

  /** Every chunked body that fits memory decodes to the concatenation of its chunks, whatever the chunks
      contain, in one turn for each chunk and one for the last. */
  lemma {:induction false} DecodeOfEncode(chunks: seq<Chunk>, last: Last, turns: nat)
    requires AreChunks(chunks) && IsLast(last) && |Encode(chunks, last)| <= U64_MAX && turns > |chunks|
    ensures Run(Encode(chunks, last), 0, turns) == Body(Payload(chunks))
  {
    hide Run, Encode;
    assert [] + Encode(chunks, last) == Encode(chunks, last);
    RunChunks([], chunks, last, turns);
  }

  // ----- truncated bodies -----

  /** The line end is not there yet: the loop stops. */
  lemma TurnWithoutLine(pre: string, line: string, rest: string, cut: nat)
    requires CrlfFree(line) && |pre| <= cut < |pre| + |line| + 2 && cut <= |pre + line + CRLF + rest|
    ensures TakeTurn((pre + line + CRLF + rest)[..cut], |pre|) == Stop
  {
    hide FindFrom;
    var s := (pre + line + CRLF + rest)[..cut];
    forall k | |pre| <= k < |s| - 1
      ensures s[k] != '\r' || s[k + 1] != '\n'
    {
      if k + 1 < |pre| + |line| {
        assert s[k] == line[k - |pre|] && s[k + 1] == line[k + 1 - |pre|];
      }
    }
    NoLineFrom(s, |pre|);
  }

  /** The data is only partly there: the loop takes what there is and leaves the cursor past the end. */
  lemma TurnInsideData(pre: string, c: Chunk, rest: string, cut: nat)
    requires IsChunk(c) && |pre + ChunkText(c) + rest| <= U64_MAX
    requires |pre| + |c.size + c.extension| + 2 <= cut <= |pre + ChunkText(c) + rest|
    ensures var from := |pre| + |c.size + c.extension| + 2;
      TakeTurn((pre + ChunkText(c) + rest)[..cut], |pre|)
        == Take(if cut - from < |c.data| then c.data[..cut - from] else c.data, |pre| + |ChunkText(c)|)
  {
    hide TakeTurn, IsSizeLine, HexValue;
    var line := c.size + c.extension;
    var after := c.data + CRLF + rest;
    var from := |pre| + |line| + 2;
    ChunkSplit(pre, c, rest);
    CutAfter(pre + line + CRLF, after, cut);
    TurnAtLine(pre, c.size, c.extension, after[..cut - from]);
    if cut - from < |c.data| {
      assert after[..cut - from] == c.data[..cut - from];
    } else {
      assert after[..cut - from][0..|c.data|] == c.data;
    }
  }

  lemma CutAfter(pre: string, rest: string, cut: nat)
    requires |pre| <= cut <= |pre + rest|
    ensures (pre + rest)[..cut] == pre + rest[..cut - |pre|]
  {
  }

  lemma {:induction false} CutFrom(pre: string, chunks: seq<Chunk>, last: Last, cut: nat, turns: nat)
    requires AreChunks(chunks) && IsLast(last) && |pre + Encode(chunks, last)| <= U64_MAX
    requires |pre| <= cut <= |pre + Encode(chunks, last)| && turns > |chunks|
    ensures IsPrefixOf(Run((pre + Encode(chunks, last))[..cut], |pre|, turns), Payload(chunks))
    decreases |chunks|
  {
    hide TakeTurn, IsChunk, IsLast, IsSizeLine, ChunkText;
    if cut == |pre| {
    } else if chunks == [] {
      CutLast(pre, last, cut, turns);
    } else {
      var c, rest := chunks[0], Encode(chunks[1..], last);
      assert IsChunk(c);
      assert pre + Encode(chunks, last) == pre + ChunkText(c) + rest;
      CutChunk(pre, c, rest, cut);
      if cut > |pre| + |ChunkText(c)| {
        CutFrom(pre + ChunkText(c), chunks[1..], last, cut, turns - 1);
      }
    }
  }

  predicate IsPrefixOf(r: Result, payload: string) {
    r.Body? && r.text <= payload
  }

  /** The turn at a chunk of a body that is cut inside the chunk or later. */
  lemma CutChunk(pre: string, c: Chunk, rest: string, cut: nat)
    requires IsChunk(c) && |pre + ChunkText(c) + rest| <= U64_MAX
    requires |pre| < cut <= |pre + ChunkText(c) + rest|
    ensures var turn, size := TakeTurn((pre + ChunkText(c) + rest)[..cut], |pre|), |ChunkText(c)|;
      && (turn.Stop? ==> cut < |pre| + size)
      && (turn.Take? ==> turn.next == |pre| + size > |pre| && turn.text <= c.data)
      && (turn.Take? && cut > |pre| + size ==> turn.text == c.data)
  {
    hide TakeTurn, IsSizeLine, HexValue;
    var line := c.size + c.extension;
    var from := |pre| + |line| + 2;
    if cut < from {
      LineFacts(c.size, c.extension);
      ChunkSplit(pre, c, rest);
      TurnWithoutLine(pre, line, c.data + CRLF + rest, cut);
    } else {
      TurnInsideData(pre, c, rest, cut);
    }
  }

  lemma CutLast(pre: string, last: Last, cut: nat, turns: nat)
    requires IsLast(last) && turns > 0
    requires |pre| < cut <= |pre + (last.size + last.extension + CRLF + last.trailer)|
    ensures Run((pre + (last.size + last.extension + CRLF + last.trailer))[..cut], |pre|, turns) == Body([])
  {
    hide TakeTurn, IsSizeLine;
    var line := last.size + last.extension;
    var body := pre + (last.size + last.extension + CRLF + last.trailer);
    assert body == pre + line + CRLF + last.trailer;
    LineFacts(last.size, last.extension);
    if cut < |pre| + |line| + 2 {
      TurnWithoutLine(pre, line, last.trailer, cut);
    } else {
      var t := last.(trailer := last.trailer[..cut - |pre| - |line| - 2]);
      assert body[..cut] == pre + (t.size + t.extension + CRLF + t.trailer);
      TurnAtLast(pre, t);
    }
  }

  /** A chunked body cut anywhere decodes to a prefix of its payload. */
  lemma {:induction false} TruncatedIsPrefix(chunks: seq<Chunk>, last: Last, cut: nat, turns: nat)
    requires AreChunks(chunks) && IsLast(last) && |Encode(chunks, last)| <= U64_MAX && cut <= |Encode(chunks, last)|
    requires turns > |chunks|
    ensures IsPrefixOf(Run(Encode(chunks, last)[..cut], 0, turns), Payload(chunks))
  {
    hide Run, Encode;
    assert [] + Encode(chunks, last) == Encode(chunks, last);
    CutFrom([], chunks, last, cut, turns);
  }

  // ----- two wrapping bodies -----

  function Fs(): (s: string)
    ensures |s| == 14 && forall i | 0 <= i < |s| :: s[i] == 'f'
  {
    "ffffffffffffff"
  }

  lemma {:induction false} HexValueOfFs(k: nat, s: string)
    requires |s| == k && forall i | 0 <= i < k :: s[i] == 'f'
    ensures (forall i | 0 <= i < |s| :: IsHexDigit(s[i])) && HexValue(s) + 1 == Sixteens(k)
  {
    if k > 0 {
      HexValueOfFs(k - 1, s[..k - 1]);
    }
  }

  function Sixteens(k: nat): nat {
    if k == 0 then 1 else 16 * Sixteens(k - 1)
  }

  lemma HexStep(s: string, c: char)
    requires (forall i | 0 <= i < |s| :: IsHexDigit(s[i])) && IsHexDigit(c)
    ensures HexValue(s + [c]) == 16 * HexValue(s) + HexVal(c)
  {
    assert (s + [c])[..|s|] == s;
  }

  /** Fourteen 'f's and two more digits: a size just below 2^64. */
  lemma WrappingSize(c: char, d: char)
    requires IsHexDigit(c) && IsHexDigit(d)
    ensures IsSizeLine(Fs() + [c, d], []) && HexValue(Fs() + [c, d]) == U64_MAX + 1 - 256 + 16 * HexVal(c) + HexVal(d)
  {
    hide Fs, HexValue;
    HexValueOfFs(14, Fs());
    SixteensFourteen();
    HexStep(Fs(), c);
    HexStep(Fs() + [c], d);
    assert Fs() + [c] + [d] == Fs() + [c, d];
  }

  lemma SixteensFourteen()
    ensures Sixteens(14) == 0x100_0000_0000_0000
  {
    assert Sixteens(7) == 0x1000_0000;
    assert Sixteens(10) == 0x100_0000_0000;
  }

  /** The size 2^64 - 20 puts the cursor back where it was: the loop never ends. */
  lemma WrapRepeats()
    ensures Endless(Fs() + ['e', 'c'] + CRLF)
  {
    hide TakeTurn, HexValue, IsSizeLine, Fs, Run, CursorFrom;
    var size := Fs() + ['e', 'c'];
    WrappingSize('e', 'c');
    LineFacts(size, []);
    TurnAtLine([], size, [], []);
    assert [] + (size + []) + CRLF + [] == size + CRLF;
    OneTurn(size + CRLF, 0);
    assert Revisits(size + CRLF, 0, 1);
    EndlessIff(size + CRLF);
  }

  lemma OneTurn(body: string, pos: nat)
    requires pos < |body|
    ensures CursorFrom(body, pos, 0) == Some(pos)
    ensures CursorFrom(body, pos, 1)
         == match TakeTurn(body, pos) { case Stop => None case Take(_, next) => if next < |body| then Some(next) else None }
  {
    hide TakeTurn;
  }

  function InnerZero(): string {
    "5\r\n0\r\n;;\r\n"
  }

  lemma FirstTurns(rest: string)
    ensures |InnerZero()| == 10
    ensures TakeTurn(InnerZero() + rest, 0) == Take("0\r\n;;", 10)
    ensures TakeTurn(InnerZero() + rest, 3) == Stop
  {
    hide TakeTurn;
    var body := InnerZero() + rest;
    assert HexValue("5") == 5 && HexValue("0") == 0;
    TurnAtLine([], "5", [], "0\r\n;;\r\n" + rest);
    assert [] + ("5" + []) + CRLF + ("0\r\n;;\r\n" + rest) == body;
    assert ("0\r\n;;\r\n" + rest)[0..5] == "0\r\n;;";
    TurnAtLine("5\r\n", "0", [], ";;\r\n" + rest);
    assert "5\r\n" + ("0" + []) + CRLF + (";;\r\n" + rest) == body;
  }

  /** A size can also wrap the cursor back and the loop still end: here into the data of the first chunk, where
      it reads a zero. */
  lemma WrapsBackYetEnds()
    ensures var body := InnerZero() + (Fs() + ['e', '5'] + CRLF);
      Cursor(body, 1) == Some(10) && WrapsBack(body, 10) && Run(body, 0, 3) == Body("0\r\n;;")
  {
    hide TakeTurn, HexValue, IsSizeLine, Fs, InnerZero, Unwrapped, Run, CursorFrom;
    var size := Fs() + ['e', '5'];
    var body := InnerZero() + (size + CRLF);
    FirstTurns(size + CRLF);
    WrappingSize('e', '5');
    TurnAtLine(InnerZero(), size, [], []);
    assert InnerZero() + (size + []) + CRLF + [] == body;
    assert Substr([], 0, HexValue(size)) == [];
    OneTurn(body, 0);
    ProgressIff(body, 10);
    ThreeTurns(body, "0\r\n;;");
  }

  lemma ThreeTurns(body: string, text: string)
    requires |body| > 10 && TakeTurn(body, 0) == Take(text, 10) && TakeTurn(body, 10) == Take([], 3) && TakeTurn(body, 3) == Stop
    ensures Run(body, 0, 3) == Body(text)
  {
    hide TakeTurn;
    assert Run(body, 3, 1) == Body([]);
    assert Run(body, 10, 2) == Body([]);
    assert text + [] == text;
  }
}
