/** WebSocket framing (sections 5.2 and 5.3 of RFC 6455): `sendFrame`, `recvRaw` and the frame loop of
    `runOnce`, over a connection that delivers its bytes in arbitrary pieces. */
module WebSocket {
  import opened Bytes
  import opened Numbers
  import opened Results

  datatype Frame = Frame(opcode: nat, payload: seq<byte>)

  const MAX_PAYLOAD: nat := 16 * 1024 * 1024

  // ----- masking -----

  /** Bitwise exclusive or of `k`-bit numbers. */
  function XorNat(a: nat, b: nat, k: nat): (r: nat)
    ensures r < Pow2(k)
  {
    if k == 0 then 0 else (if a % 2 != b % 2 then 1 else 0) + 2 * XorNat(a / 2, b / 2, k - 1)
  }

  function Xor8(a: byte, b: byte): byte {
    EightBits();
    XorNat(a, b, 8)
  }

  lemma XorNatStep(a: nat, m: nat, k: nat)
    ensures k == 0 ==> XorNat(a, m, k) == 0
    ensures k > 0 ==> var x := XorNat(a, m, k);
      x / 2 == XorNat(a / 2, m / 2, k - 1) && x % 2 == (if a % 2 != m % 2 then 1 else 0)
  {
  }

  lemma {:induction false} XorNatTwice(a: nat, m: nat, k: nat)
    requires a < Pow2(k)
    ensures XorNat(XorNat(a, m, k), m, k) == a
  {
    hide XorNat;
    XorNatStep(a, m, k);
    XorNatStep(XorNat(a, m, k), m, k);
    if k > 0 {
      XorNatTwice(a / 2, m / 2, k - 1);
    }
  }

  lemma Xor8Twice(a: byte, m: byte)
    ensures Xor8(Xor8(a, m), m) == a
  {
    EightBits();
    XorNatTwice(a, m, 8);
  }

  /** Bit `k` of a number. */
  predicate Bit(a: nat, k: nat) {
    a / Pow2(k) % 2 == 1
  }

  lemma HalveThenShift(a: nat, k: nat)
    requires k > 0
    ensures a / Pow2(k) == a / 2 / Pow2(k - 1)
  {
    var p := Pow2(k - 1);
    var b, q := a / 2, a / 2 / p;
    assert b == p * q + b % p;
    assert a == 2 * p * q + (2 * (b % p) + a % 2);
    QuotientIs(a, 2 * p, q, 2 * (b % p) + a % 2);
  }

  lemma QuotientIs(a: nat, d: nat, q: nat, r: nat)
    requires r < d && a == d * q + r
    ensures a / d == q
  {
    Multiples(a / d - q, d);
    assert d * (a / d - q) == r - a % d;
  }

  lemma Multiples(m: int, d: nat)
    ensures m >= 1 ==> d * m >= d
    ensures m <= -1 ==> d * m + d <= 0
  {
  }

  lemma {:induction false} XorNatBit(a: nat, m: nat, n: nat, k: nat)
    requires k < n
    ensures Bit(XorNat(a, m, n), k) <==> Bit(a, k) != Bit(m, k)
  {
    hide XorNat;
    XorNatStep(a, m, n);
    if k > 0 {
      HalveThenShift(a, k);
      HalveThenShift(m, k);
      HalveThenShift(XorNat(a, m, n), k);
      XorNatBit(a / 2, m / 2, n - 1, k - 1);
    }
  }

  type Mask = m: seq<byte> | |m| == 4 witness [0, 0, 0, 0]

  function Masked(p: seq<byte>, m: Mask): (r: seq<byte>)
    ensures |r| == |p|
  {
    seq(|p|, i requires 0 <= i < |p| => Xor8(p[i], m[i % 4]))
  }

  lemma MaskedTwice(p: seq<byte>, m: Mask)
    ensures Masked(Masked(p, m), m) == p
  {
    hide Xor8;
    forall i | 0 <= i < |p|
      ensures Masked(Masked(p, m), m)[i] == p[i]
    {
      Xor8Twice(p[i], m[i % 4]);
    }
  }

  /** A masked byte differs from the byte exactly in the bits that its mask byte, the one at the index modulo
      four, has set (section 5.3). */
  lemma MaskedBits(p: seq<byte>, m: Mask, i: nat, k: nat)
    requires i < |p| && k < 8
    ensures Bit(Masked(p, m)[i], k) != Bit(p[i], k) <==> Bit(m[i % 4], k)
  {
    hide Bit, XorNat;
    XorNatBit(p[i], m[i % 4], 8, k);
  }

  // ----- encoding -----

  /** `0x80 | b`. */
  function SetHighBit(b: byte): byte {
    if b < 0x80 then b + 0x80 else b
  }

  /** The second header byte, with or without the mask bit, and the extended length. */
  function LengthForm(n: nat, masked: bool): seq<byte>
    requires n <= U64_MAX
  {
    var top := if masked then 0x80 else 0;
    if n < 126 then [top + n]
    else if n <= 0xFFFF then [top + 126, n / 256, n % 256]
    else [top + 127] + BigEndian(n, 8)
  }

  function LengthBytes(n: nat): seq<byte>
    requires n <= U64_MAX
  {
    LengthForm(n, true)
  }

  /** A frame as either side may send it: clients mask, servers do not. */
  function WireFrame(first: byte, payload: seq<byte>, mask: Option<Mask>): seq<byte>
    requires |payload| <= U64_MAX
  {
    [first] + LengthForm(|payload|, mask.Some?)
    + (if mask.Some? then mask.value else []) + (if mask.Some? then Masked(payload, mask.value) else payload)
  }

  function EncodeFrame(opcode: byte, payload: seq<byte>, mask: Mask): seq<byte>
    requires |payload| <= U64_MAX
  {
    [SetHighBit(opcode)] + LengthBytes(|payload|) + mask + Masked(payload, mask)
  }

  // ----- decoding, as a function of the whole stream -----

  datatype Header = Header(length: nat, size: nat)

  /** The payload length and the size of the header up to it, once enough bytes are there. */
  function DecodeLength(s: seq<byte>): (r: Option<Header>)
    ensures r.Some? ==> 2 <= r.value.size <= |s|
  {
    if |s| < 2 then None
    else if s[1] % 128 == 126 then
      if |s| < 4 then None else Some(Header(BigEndianValue(s[2..4]), 4))
    else if s[1] % 128 == 127 then
      if |s| < 10 then None else Some(Header(BigEndianValue(s[2..10]), 10))
    else Some(Header(s[1] % 128, 2))
  }

  /** The first frame of the stream and its size; nothing if the stream ends inside it or it is over the cap. */
  function DecodeOne(s: seq<byte>): (r: Option<(Frame, nat)>)
    ensures r.Some? ==> 2 <= r.value.1 <= |s|
  {
    match DecodeLength(s)
    case None => None
    case Some(h) =>
      var masked := s[1] >= 0x80;
      var start := if masked then h.size + 4 else h.size;
      if h.length > MAX_PAYLOAD || |s| < start + h.length then None else
      var body := s[start..start + h.length];
      Some((Frame(s[0] % 16, if masked then Masked(body, s[h.size..start]) else body), start + h.length))
  }

  function DecodeAll(s: seq<byte>): seq<Frame>
    decreases |s|
  {
    match DecodeOne(s)
    case None => []
    case Some((f, n)) => [f] + DecodeAll(s[n..])
  }

  // ----- the connection -----

  /** What one `recv` call meets: some bytes, a receive timeout, an error or close, or `stop()`. */
  datatype Event = Deliver(n: nat) | TimedOut | Failed | Stopped

  /** Deliveries and timeouts only, with at least `m` deliveries. */
  predicate Fair(schedule: seq<Event>, m: nat) {
    if m == 0 then forall i | 0 <= i < |schedule| :: schedule[i].Deliver? || schedule[i].TimedOut?
    else schedule != [] && (schedule[0].Deliver? || schedule[0].TimedOut?)
         && Fair(schedule[1..], if schedule[0].Deliver? then m - 1 else m)
  }

  lemma {:induction false} FairWeakens(schedule: seq<Event>, m: nat, k: nat)
    requires Fair(schedule, m) && k <= m
    ensures Fair(schedule, k)
  {
    if m > 0 {
      var d := if schedule[0].Deliver? then 1 else 0;
      FairWeakens(schedule[1..], m - d, if k < d then 0 else k - d);
      if k == 0 {
        assert schedule == [schedule[0]] + schedule[1..];
      }
    }
  }

  /** What one recv call meets under a fair schedule, when it takes `n` of the `m` bytes still to come. */
  lemma FairTurn(schedule: seq<Event>, m: nat, n: nat)
    requires Fair(schedule, m)
    requires schedule != [] && n <= m && (n > 0 <==> m > 0 && schedule[0].Deliver?)
    ensures schedule[0].Deliver? || schedule[0].TimedOut?
    ensures Fair(schedule[1..], m - n)
  {
    if n > 0 {
      FairWeakens(schedule[1..], m - 1, m - n);
    }
  }

  lemma FairNotEmpty(schedule: seq<Event>, m: nat)
    requires Fair(schedule, m)
    ensures m > 0 ==> schedule != []
  {
  }

  lemma PrefixGrows(s: seq<byte>, i: nat, n: nat)
    requires i + n <= |s|
    ensures s[..i] + s[i..][..n] == s[..i + n] && s[i..][n..] == s[i + n..]
  {
  }

  function Min(a: nat, b: nat): nat {
    if a < b then a else b
  }

  function Max(a: nat, b: nat): nat {
    if a < b then b else a
  }

  class Connection {
    var running: bool
    var incoming: seq<byte>       // sent by the peer, not yet received
    var schedule: seq<Event>         // what the coming recv calls meet
    var received: seq<Frame>      // frames the loop has decoded
    var dispatched: seq<seq<byte>>
    var replies: seq<Frame>       // frames handed to sendFrame

    constructor (stream: seq<byte>, events: seq<Event>)
      ensures running && incoming == stream && schedule == events
      ensures received == [] && dispatched == [] && replies == []
    {
      running, incoming, schedule := true, stream, events;
      received, dispatched, replies := [], [], [];
    }

    predicate IsFair()
      reads this
    {
      running && Fair(schedule, |incoming|)
    }

    /** One `recv` call into `buf` from `at` on: the bytes it got, or none because the call was woken without
        data (`again`), met an error, or found the peer closed. */
    method Recv(buf: array<byte>, at: nat) returns (n: nat, again: bool)
      requires at < buf.Length
      modifies `running, `incoming, `schedule, buf
      ensures at + n <= buf.Length && n <= old(|incoming|)
      ensures buf[..at + n] == old(buf[..at]) + old(incoming)[..n] && incoming == old(incoming)[n..]
      ensures |schedule| <= old(|schedule|) && (n > 0 || again ==> |schedule| < old(|schedule|))
      ensures old(IsFair()) ==> IsFair() && (old(incoming) != [] ==> n > 0 || again)
    {
      hide Fair;
      if old(IsFair()) {
        FairNotEmpty(schedule, |incoming|);
      }
      n, again := 0, false;
      if schedule != [] {
        var event := schedule[0];
        if event.Deliver? {
          n := Min(Max(event.n, 1), Min(buf.Length - at, |incoming|));
        }
        if old(IsFair()) {
          FairTurn(schedule, |incoming|, n);
        }
        schedule := schedule[1..];
        again := n == 0 && !event.Failed?;
        if event.Stopped? {
          running := false;
        }
      }  // otherwise nothing more arrives: the peer has closed
      Fill(buf, at, incoming[..n]);
      incoming := incoming[n..];
    }

    /** Reads exactly `|buf|` bytes across any number of partial deliveries and timeouts. It fails only on
        an error, a close, a stop, or a stream or schedule that ends too early. */
    method RecvRaw(buf: array<byte>) returns (ok: bool)
      modifies `running, `incoming, `schedule, buf
      ensures |schedule| <= old(|schedule|)
      ensures ok ==> buf.Length <= old(|incoming|)
      ensures ok ==> buf[..] == old(incoming)[..buf.Length] && incoming == old(incoming)[buf.Length..]
      ensures ok && buf.Length > 0 ==> |schedule| < old(|schedule|)
      ensures old(IsFair()) && buf.Length <= old(|incoming|) ==> ok
      ensures old(IsFair()) && ok ==> IsFair()
    {
      hide IsFair;
      var total := 0;
      while total < buf.Length
        invariant 0 <= total <= buf.Length && total <= old(|incoming|)
        invariant buf[..total] == old(incoming)[..total] && incoming == old(incoming)[total..]
        invariant |schedule| <= old(|schedule|) && (total > 0 ==> |schedule| < old(|schedule|))
        invariant old(IsFair()) ==> IsFair()
        decreases |schedule|
      {
        if !running {
          FairRuns();
          return false;
        }
        var n, again := Recv(buf, total);
        if n == 0 && !again {
          return false;
        }
        PrefixGrows(old(incoming), total, n);
        total := total + n;
      }
      return true;
    }

    lemma FairRuns()
      ensures IsFair() ==> running
    {
    }

    /** The extended length, if the seven-bit length asks for one. `s` is the stream from the header on. */
    method ReadLength(first: nat, ghost s: seq<byte>) returns (ok: bool, len: nat)
      requires |s| >= 2 && first == s[1] % 128 && incoming == s[2..]
      modifies `running, `incoming, `schedule
      ensures |schedule| <= old(|schedule|)
      ensures ok ==> DecodeLength(s).Some? && len == DecodeLength(s).value.length && incoming == s[DecodeLength(s).value.size..]
      ensures old(IsFair()) && !ok ==> DecodeLength(s) == None
      ensures old(IsFair()) && ok ==> IsFair()
    {
      hide BigEndianValue;
      ok, len := true, first;
      if first == 126 {
        var ext := new byte[2];
        ok := RecvRaw(ext);
        if ok {
          TwoBytes(ext[0], ext[1]);
          assert ext[..] == [ext[0], ext[1]] == s[2..4];
          var high: nat := ext[0];
          len := high * 256 + ext[1];
        }
      } else if first == 127 {
        var ext := new byte[8];
        ok := RecvRaw(ext);
        if ok {
          assert ext[..] == s[2..10];
          len := HornerLoop(ext);
        }
      }
    }

    /** The mask key, if there is one, and the payload, unmasked in place. */
    method ReadPayload(len: nat, masked: bool) returns (ok: bool, payload: seq<byte>)
      modifies `running, `incoming, `schedule
      ensures |schedule| <= old(|schedule|)
      ensures ok ==> var start := if masked then 4 else 0; var s := old(incoming);
        && start + len <= |s| && incoming == s[start + len..]
        && payload == if masked then Masked(s[start..start + len], s[..start]) else s[start..start + len]
      ensures old(IsFair()) && !ok ==> old(|incoming|) < (if masked then 4 else 0) + len
      ensures old(IsFair()) && ok ==> IsFair()
    {
      hide Masked, Fair;
      ghost var s := incoming;
      payload := [];
      var mask := new byte[4](i => 0);
      if masked {
        ok := RecvRaw(mask);
        if !ok {
          return;
        }
      }
      ghost var start := if masked then 4 else 0;
      assert incoming == s[start..];
      var text := new byte[len](i => 0);
      ok := true;
      if len > 0 {
        ok := RecvRaw(text);
        if !ok {
          return;
        }
      }
      assert text[..] == s[start..start + len] && incoming == s[start + len..];
      if masked {
        Unmask(text, mask[..]);
      }
      payload := text[..];
    }

    /** One turn of the frame loop up to the `switch`; nothing when the loop breaks. */
    method ReadFrame() returns (r: Option<Frame>)
      modifies `running, `incoming, `schedule
      ensures |schedule| <= old(|schedule|)
      ensures r.Some? ==> |schedule| < old(|schedule|)
      ensures r.Some? ==> DecodeOne(old(incoming)).Some? && r.value == DecodeOne(old(incoming)).value.0
                          && incoming == old(incoming)[DecodeOne(old(incoming)).value.1..]
      ensures old(IsFair()) && r.None? ==> DecodeOne(old(incoming)) == None
      ensures old(IsFair()) && r.Some? ==> IsFair()
    {
      hide DecodeLength, DecodeOne, Masked, Fair;
      ghost var s := incoming;
      var hdr := new byte[2];
      var ok := RecvRaw(hdr);
      if !ok {
        ShortHeader(s);
        return None;
      }
      assert hdr[..][0] == s[0] && hdr[..][1] == s[1];
      var opcode := hdr[0] % 16;
      var masked := hdr[1] >= 0x80;
      var len;
      ok, len := ReadLength(hdr[1] % 128, s);
      if !ok || len > MAX_PAYLOAD {
        NoFrame(s);
        return None;
      }
      var payload;
      ok, payload := ReadPayload(len, masked);
      if !ok {
        NoFrame(s);
        return None;
      }
      FrameIs(s);
      return Some(Frame(opcode, payload));
    }

    /** The frame loop: each frame is logged, text is dispatched, a ping or close is answered. Whatever the
        schedule, what it decodes is a prefix of the frames of the stream; under a fair schedule it is all
        of them. */
    method FrameLoop()
      modifies this
      ensures exists done: seq<Frame> ::
        && done <= DecodeAll(old(incoming))
        && received == old(received) + done
        && dispatched == old(dispatched) + Texts(done)
        && replies == old(replies) + Replies(done)
        && (old(IsFair()) ==> done == DecodeAll(old(incoming)))
    {
      hide DecodeOne, DecodeAll, Texts, Replies, Fair;
      ghost var done: seq<Frame> := [];
      NothingLogged();
      assert old(received) + [] == old(received);
      while running
        invariant done + DecodeAll(incoming) == DecodeAll(old(incoming))
        invariant received == old(received) + done
        invariant dispatched == old(dispatched) + Texts(done)
        invariant replies == old(replies) + Replies(done)
        invariant old(IsFair()) ==> IsFair()
        decreases |schedule|
      {
        ghost var before := incoming;
        var r := ReadFrame();
        if r.None? {
          DecodeAllStep(before);
          assert done <= done + DecodeAll(before);
          if old(IsFair()) {
            assert done + [] == done;
          }
          return;
        }
        var frame := r.value;
        DecodeAllStep(before);
        LogMore(done, frame);
        assert done + ([frame] + DecodeAll(incoming)) == (done + [frame]) + DecodeAll(incoming);
        done := done + [frame];
        received := received + [frame];
        if frame.opcode == 0x1 {
          dispatched := dispatched + [frame.payload];
        } else if frame.opcode == 0x9 {
          replies := replies + [Frame(0xA, frame.payload)];
        } else if frame.opcode == 0x8 {
          replies := replies + [Frame(0x8, [])];
        }
      }
      assert done <= done + DecodeAll(incoming);
    }
  }

  /** Payloads of the text frames, in order. */
  function Texts(frames: seq<Frame>): seq<seq<byte>> {
    if frames == [] then [] else
    var f := frames[|frames| - 1];
    Texts(frames[..|frames| - 1]) + if f.opcode == 0x1 then [f.payload] else []
  }

  /** A pong for every ping and a close for every close, in order. */
  function Replies(frames: seq<Frame>): seq<Frame> {
    if frames == [] then [] else
    var f := frames[|frames| - 1];
    Replies(frames[..|frames| - 1])
    + if f.opcode == 0x9 then [Frame(0xA, f.payload)] else if f.opcode == 0x8 then [Frame(0x8, [])] else []
  }

  lemma NothingLogged()
    ensures Texts([]) == [] && Replies([]) == []
  {
  }

  lemma LogMore(frames: seq<Frame>, f: Frame)
    ensures Texts(frames + [f]) == Texts(frames) + if f.opcode == 0x1 then [f.payload] else []
    ensures Replies(frames + [f])
         == Replies(frames)
            + if f.opcode == 0x9 then [Frame(0xA, f.payload)] else if f.opcode == 0x8 then [Frame(0x8, [])] else []
  {
    assert (frames + [f])[..|frames|] == frames;
  }

  /** The frames with one of the given opcodes, in order. */
  function Only(frames: seq<Frame>, opcodes: set<nat>): seq<Frame> {
    if frames == [] then [] else
    var f := frames[|frames| - 1];
    Only(frames[..|frames| - 1], opcodes) + if f.opcode in opcodes then [f] else []
  }

  /** Sections 5.5.1 and 5.5.3: a ping (9) is answered by a pong (10) with the same payload, a close (8) by a
      close. */
  predicate Answers(reply: Frame, f: Frame) {
    (f.opcode == 9 ==> reply.opcode == 10 && reply.payload == f.payload) && (f.opcode == 8 ==> reply.opcode == 8)
  }

  /** The payloads of the text frames (1) are dispatched, every ping and close has its answer, and nothing else
      is dispatched or answered. */
  lemma {:induction false} LogIs(frames: seq<Frame>)
    ensures |Texts(frames)| == |Only(frames, {1})|
    ensures forall k | 0 <= k < |Texts(frames)| :: Texts(frames)[k] == Only(frames, {1})[k].payload
    ensures |Replies(frames)| == |Only(frames, {8, 9})|
    ensures forall k | 0 <= k < |Replies(frames)| :: Answers(Replies(frames)[k], Only(frames, {8, 9})[k])
  {
    if frames != [] {
      LogIs(frames[..|frames| - 1]);
    }
  }

  lemma DecodeAllStep(s: seq<byte>)
    ensures DecodeAll(s) == if DecodeOne(s).None? then [] else [DecodeOne(s).value.0] + DecodeAll(s[DecodeOne(s).value.1..])
  {
  }

  /** Why the loop finds no frame. */
  lemma NoFrame(s: seq<byte>)
    ensures DecodeLength(s) == None ==> DecodeOne(s) == None
    ensures DecodeLength(s).Some? ==>
      var h := DecodeLength(s).value;
      h.length > MAX_PAYLOAD || |s[h.size..]| < (if s[1] >= 0x80 then 4 else 0) + h.length ==> DecodeOne(s) == None
  {
  }

  /** The frame in terms of what follows the header. */
  lemma FrameIs(s: seq<byte>)
    requires DecodeLength(s).Some? && DecodeLength(s).value.length <= MAX_PAYLOAD
    requires (if s[1] >= 0x80 then 4 else 0) + DecodeLength(s).value.length <= |s[DecodeLength(s).value.size..]|
    ensures DecodeOne(s).Some?
    ensures var h := DecodeLength(s).value; var t := s[h.size..]; var start := if s[1] >= 0x80 then 4 else 0;
      && t[start + h.length..] == s[DecodeOne(s).value.1..]
      && DecodeOne(s).value.0
         == Frame(s[0] % 16, if s[1] >= 0x80 then Masked(t[start..start + h.length], t[..start]) else t[start..start + h.length])
  {
    hide DecodeLength, Masked;
    var h := DecodeLength(s).value;
    var t, start := s[h.size..], if s[1] >= 0x80 then 4 else 0;
    assert t[start..start + h.length] == s[h.size + start..h.size + start + h.length];
    assert t[..start] == s[h.size..h.size + start];
  }

  lemma ShortHeader(s: seq<byte>)
    ensures |s| < 2 ==> DecodeLength(s) == None && DecodeOne(s) == None
  {
  }

  lemma TwoBytes(a: byte, b: byte)
    ensures BigEndianValue([a, b]) == a * 256 + b
  {
    assert [a, b][..1] == [a] && [a][..0] == [];
    assert BigEndianValue([a]) == a;
  }

  /** `for (auto b : ext) len = (len << 8) | b`. */
  method HornerLoop(ext: array<byte>) returns (len: nat)
    ensures len == BigEndianValue(ext[..])
  {
    len := 0;
    for i := 0 to ext.Length
      invariant len == BigEndianValue(ext[..i])
    {
      assert ext[..i + 1][..i] == ext[..i];
      len := len * 256 + ext[i];
    }
    assert ext[..ext.Length] == ext[..];
  }

  /** `payload[i] ^ mask[i % 4]` in place. */
  method Unmask(payload: array<byte>, mask: Mask)
    modifies payload
    ensures payload[..] == Masked(old(payload[..]), mask)
  {
    hide Xor8;
    for i := 0 to payload.Length
      invariant forall k | 0 <= k < i :: payload[k] == Xor8(old(payload[k]), mask[k % 4])
      invariant forall k | i <= k < payload.Length :: payload[k] == old(payload[k])
    {
      payload[i] := Xor8(payload[i], mask[i % 4]);
    }
  }

  /** `recv` writing at `buf + at`. */
  method Fill(buf: array<byte>, at: nat, bytes: seq<byte>)
    requires at + |bytes| <= buf.Length
    modifies buf
    ensures buf[..at + |bytes|] == old(buf[..at]) + bytes
  {
    for i := 0 to |bytes|
      invariant buf[..at + i] == old(buf[..at]) + bytes[..i]
    {
      buf[at + i] := bytes[i];
    }
  }

  // ----- sendFrame -----

  method AppendLength(head: seq<byte>, n: nat) returns (frame: seq<byte>)
    requires n <= U64_MAX
    ensures frame == head + LengthBytes(n)
  {
    hide BigEndian, ShiftBytes;
    frame := head;
    if n < 126 {
      frame := frame + [0x80 + n];
    } else if n <= 0xFFFF {
      frame := frame + [0x80 + 126];
      frame := frame + [n / 256 % 256];
      frame := frame + [n % 256];
    } else {
      frame := frame + [0x80 + 127];
      ghost var value := BigEndian(n, 8);
      var i := 7;
      while i >= 0
        invariant -1 <= i <= 7
        invariant frame == head + [0x80 + 127] + value[..7 - i]
      {
        BigEndianAt(n, 8, i);
        assert value[..7 - i] + [value[7 - i]] == value[..8 - i];
        frame := frame + [ShiftBytes(n, i) % 256];
        i := i - 1;
      }
      assert value[..8] == value;
    }
  }

  /** `sendFrame` up to the socket, with the four random mask bytes as an argument. */
  method SendFrame(opcode: byte, payload: seq<byte>, mask: Mask) returns (frame: seq<byte>)
    requires |payload| <= U64_MAX
    ensures frame == EncodeFrame(opcode, payload, mask)
  {
    hide Xor8, LengthBytes;
    frame := AppendLength([SetHighBit(opcode)], |payload|);
    frame := frame + mask;
    ghost var head, body := frame, Masked(payload, mask);
    for i := 0 to |payload|
      invariant frame == head + body[..i]
    {
      assert body[..i] + [body[i]] == body[..i + 1];
      frame := frame + [Xor8(payload[i], mask[i % 4])];
    }
    assert body[..|payload|] == body;
  }

  // ----- round trip -----

  lemma LengthRoundTrip(first: byte, n: nat, masked: bool, rest: seq<byte>)
    requires n <= U64_MAX
    ensures var s := [first] + LengthForm(n, masked) + rest;
      && (s[1] >= 0x80 <==> masked)
      && DecodeLength(s) == Some(Header(n, 1 + |LengthForm(n, masked)|))
  {
    hide BigEndian, BigEndianValue;
    var l := LengthForm(n, masked);
    var s := [first] + l + rest;
    LengthPart(first, l, rest);
    if 126 <= n <= 0xFFFF {
      assert l[1..] == [n / 256, n % 256];
      TwoBytes(n / 256, n % 256);
    } else if n > 0xFFFF {
      assert l[1..] == BigEndian(n, 8);
      Uint64FitsEightBytes(n);
      BigEndianRoundTrip(n, 8);
    }
  }

  lemma LengthPart(first: byte, l: seq<byte>, rest: seq<byte>)
    requires l != []
    ensures var s := [first] + l + rest; s[1] == l[0] && s[2..1 + |l|] == l[1..]
  {
  }

  /** The first two bytes of a sent frame: FIN set, no reserved bit, the opcode; the mask bit set. The mask key
      stands after the length, the masked payload after it and nothing else (section 5.2). */
  lemma FrameLayout(opcode: byte, payload: seq<byte>, mask: Mask)
    requires opcode < 16 && |payload| <= U64_MAX
    ensures var e := EncodeFrame(opcode, payload, mask); var n := |e| - |payload|;
      && n >= 6
      && e[0] / 128 == 1 && e[0] % 128 == opcode
      && e[1] / 128 == 1
      && e[n - 4..n] == mask && e[n..] == Masked(payload, mask)
  {
    hide Masked;
    var l, b := LengthBytes(|payload|), Masked(payload, mask);
    var e := EncodeFrame(opcode, payload, mask);
    assert e == [SetHighBit(opcode)] + l + mask + b;
    assert e[1] == l[0];
  }

  /** What the loop makes of any frame at the start of its stream, masked or not, whatever its flag bits: it
      accepts up to 16777216 bytes of payload and no more. */
  lemma WireRoundTrip(first: byte, payload: seq<byte>, mask: Option<Mask>, rest: seq<byte>)
    requires |payload| <= U64_MAX
    ensures DecodeOne(WireFrame(first, payload, mask) + rest)
         == if |payload| <= 16777216 then Some((Frame(first % 16, payload), |WireFrame(first, payload, mask)|)) else None
  {
    hide Masked, DecodeLength, LengthForm, WireFrame;
    var l := LengthForm(|payload|, mask.Some?);
    var key: seq<byte>, body: seq<byte> := if mask.Some? then mask.value else [], if mask.Some? then Masked(payload, mask.value) else payload;
    WireIs(first, payload, mask);
    WireParts(first, l, key, body, rest);
    LengthRoundTrip(first, |payload|, mask.Some?, key + body + rest);
    if mask.Some? {
      MaskedTwice(payload, mask.value);
    }
  }

  lemma WireIs(first: byte, payload: seq<byte>, mask: Option<Mask>)
    requires |payload| <= U64_MAX
    ensures WireFrame(first, payload, mask)
         == [first] + LengthForm(|payload|, mask.Some?)
            + (if mask.Some? then mask.value else []) + (if mask.Some? then Masked(payload, mask.value) else payload)
  {
  }

  lemma WireParts(first: byte, l: seq<byte>, key: seq<byte>, body: seq<byte>, rest: seq<byte>)
    ensures var s := [first] + l + key + body + rest; var size, k := 1 + |l|, |key|;
      && s == [first] + l + (key + body + rest)
      && s[0] == first && s[size..size + k] == key && s[size + k..size + k + |body|] == body
  {
  }

  /** In particular the decoder undoes `sendFrame`. */
  lemma FrameRoundTrip(opcode: byte, payload: seq<byte>, mask: Mask, rest: seq<byte>)
    requires opcode < 16 && |payload| <= U64_MAX
    ensures DecodeOne(EncodeFrame(opcode, payload, mask) + rest)
         == if |payload| <= 16777216 then Some((Frame(opcode, payload), |EncodeFrame(opcode, payload, mask)|)) else None
  {
    hide Masked, DecodeOne, LengthForm;
    WireRoundTrip(SetHighBit(opcode), payload, Some(mask), rest);
  }

  datatype Outgoing = Outgoing(first: byte, payload: seq<byte>, mask: Option<Mask>)

  predicate Sendable(f: Outgoing) {
    |f.payload| <= 16777216
  }

  function Stream(frames: seq<Outgoing>): seq<byte>
    requires forall f | f in frames :: Sendable(f)
  {
    if frames == [] then [] else
    assert frames[0] in frames && Sendable(frames[0]);
    WireFrame(frames[0].first, frames[0].payload, frames[0].mask) + Stream(frames[1..])
  }

  function Contents(frames: seq<Outgoing>): seq<Frame> {
    seq(|frames|, i requires 0 <= i < |frames| => Frame(frames[i].first % 16, frames[i].payload))
  }

  /** Any sequence of frames, all three length forms, masked or not, decodes to their opcodes and payloads. */
  lemma {:induction false} StreamRoundTrip(frames: seq<Outgoing>)
    requires forall f | f in frames :: Sendable(f)
    ensures DecodeAll(Stream(frames)) == Contents(frames)
  {
    hide WireFrame, DecodeOne;
    if frames == [] {
      NothingToDecode();
    } else {
      var f := frames[0];
      assert f in frames && forall g | g in frames[1..] :: g in frames;
      var e := WireFrame(f.first, f.payload, f.mask);
      WireRoundTrip(f.first, f.payload, f.mask, Stream(frames[1..]));
      assert (e + Stream(frames[1..]))[|e|..] == Stream(frames[1..]);
      StreamRoundTrip(frames[1..]);
      assert Contents(frames) == [Frame(f.first % 16, f.payload)] + Contents(frames[1..]);
    }
  }

  lemma NothingToDecode()
    ensures DecodeOne([]) == None
  {
  }

  lemma DecodeLengthStable(s: seq<byte>, t: seq<byte>)
    requires DecodeLength(s).Some?
    ensures DecodeLength(s + t) == DecodeLength(s)
  {
    if |s| >= 10 {
      assert (s + t)[2..10] == s[2..10];
    }
    if |s| >= 4 {
      assert (s + t)[2..4] == s[2..4];
    }
  }

  lemma DecodeOneStable(s: seq<byte>, t: seq<byte>)
    requires DecodeOne(s).Some?
    ensures DecodeOne(s + t) == DecodeOne(s)
  {
    hide DecodeLength, Masked;
    DecodeLengthStable(s, t);
    assert |s| >= 2 by {
      ShortHeader(s);
    }
    var h := DecodeLength(s).value;
    var start := if s[1] >= 0x80 then h.size + 4 else h.size;
    assert (s + t)[start..start + h.length] == s[start..start + h.length];
    assert s[1] >= 0x80 ==> (s + t)[h.size..start] == s[h.size..start];
  }

  /** Bytes that arrive later never change what was decoded: a truncated stream yields a prefix. */
  lemma {:induction false} TruncatedIsPrefix(s: seq<byte>, t: seq<byte>)
    ensures DecodeAll(s) <= DecodeAll(s + t)
    decreases |s|
  {
    hide DecodeOne;
    if DecodeOne(s).Some? {
      var n := DecodeOne(s).value.1;
      DecodeOneStable(s, t);
      assert (s + t)[n..] == s[n..] + t;
      TruncatedIsPrefix(s[n..], t);
    }
  }

  /** A stream of sent frames cut anywhere decodes to a prefix of them. */
  lemma {:induction false} CutStream(frames: seq<Outgoing>, cut: nat)
    requires (forall f | f in frames :: Sendable(f)) && cut <= |Stream(frames)|
    ensures DecodeAll(Stream(frames)[..cut]) <= Contents(frames)
  {
    hide Stream, DecodeAll, Contents;
    var s := Stream(frames);
    StreamRoundTrip(frames);
    TruncatedIsPrefix(s[..cut], s[cut..]);
    assert s[..cut] + s[cut..] == s;
  }

  /** A whole session: the peer's frames, cut anywhere, arrive under any schedule. What the loop decodes is
      always a prefix of what was sent, and all of it if nothing is cut off and the schedule is fair. */
  method Session(frames: seq<Outgoing>, cut: nat, schedule: seq<Event>) returns (received: seq<Frame>)
    requires (forall f | f in frames :: Sendable(f)) && cut <= |Stream(frames)|
    ensures received <= Contents(frames)
    ensures cut == |Stream(frames)| && Fair(schedule, cut) ==> received == Contents(frames)
  {
    hide Stream, DecodeAll, Contents, Fair, Texts, Replies;
    CutStream(frames, cut);
    StreamRoundTrip(frames);
    var arriving := Stream(frames)[..cut];
    assert cut == |Stream(frames)| ==> arriving == Stream(frames);
    var c := new Connection(arriving, schedule);
    c.FrameLoop();
    received := c.received;
    assert [] + received == received;
  }

  /** The length form is minimal: no header that decodes to the same length is shorter (section 5.2). */
  lemma LengthFormMinimal(n: nat, s: seq<byte>)
    requires n <= U64_MAX && DecodeLength(s).Some? && DecodeLength(s).value.length == n
    ensures 1 + |LengthBytes(n)| <= DecodeLength(s).value.size
  {
    if |s| >= 4 {
      TwoBytes(s[2], s[3]);
      assert s[2..4] == [s[2], s[3]];
    }
  }
}
