/** Deciphering and framing the TCP byte stream of the server probe, chunk by chunk. */
module PacketStream {
  import opened Wrappers
  import opened Bytes
  import opened Rc4

  const OP_PACKEDPROT: byte := 0xD4
  const MAX_FRAME: nat := 2_000_000

  /** What the receive loop reports for one frame. */
  datatype Item =
    | Message(proto: byte, opcode: byte, body: seq<byte>)
    | InflateFailed(opcode: byte)
    | BadFrame(proto: byte, size: nat)

  /** zlib.decompress, kept abstract; None is zlib.error. */
  type Inflate = seq<byte> -> Option<seq<byte>>

  function Deliver(inflate: Inflate, proto: byte, payload: seq<byte>): Item
    requires payload != []
  {
    if proto == OP_PACKEDPROT then
      match inflate(payload[1..])
      case None => InflateFailed(payload[0])
      case Some(body) => Message(proto, payload[0], body)
    else Message(proto, payload[0], payload[1..])
  }

  // ----- framing on values -----

  datatype Framed = Framed(items: seq<Item>, rest: seq<byte>)

  function FrameSize(buf: seq<byte>): nat
    requires |buf| >= 5
  {
    Val32(buf[1..5])
  }

  predicate BadSize(n: nat) { n == 0 || n > MAX_FRAME }

  /** All frames at the head of the buffer; a bad size empties the buffer. */
  function Frames(inflate: Inflate, buf: seq<byte>): Framed {
    if |buf| < 5 then Framed([], buf) else
    var n := FrameSize(buf);
    if BadSize(n) then Framed([BadFrame(buf[0], n)], [])
    else if |buf| < 5 + n then Framed([], buf)
    else
      var f := Frames(inflate, buf[5 + n..]);
      Framed([Deliver(inflate, buf[0], buf[5..5 + n])] + f.items, f.rest)
  }

  /** No frame in s has a bad size, unless its header is the very end of s. */
  predicate Clean(s: seq<byte>) {
    if |s| < 5 then true else
    var n := FrameSize(s);
    if BadSize(n) then |s| == 5
    else |s| < 5 + n || Clean(s[5 + n..])
  }

  predicate BadHead(s: seq<byte>) { |s| >= 5 && BadSize(FrameSize(s)) }

  predicate WholeHead(s: seq<byte>) { |s| >= 5 && !BadSize(FrameSize(s)) && |s| >= 5 + FrameSize(s) }

  /** The three ways framing goes on at the head of s. */
  lemma FramesStep(inflate: Inflate, s: seq<byte>)
    ensures BadHead(s) ==>
      Frames(inflate, s) == Framed([BadFrame(s[0], FrameSize(s))], []) && (Clean(s) <==> |s| == 5)
    ensures WholeHead(s) ==>
      var n := 5 + FrameSize(s);
      var f := Frames(inflate, s[n..]);
      Frames(inflate, s) == Framed([Deliver(inflate, s[0], s[5..n])] + f.items, f.rest) && (Clean(s) <==> Clean(s[n..]))
    ensures !BadHead(s) && !WholeHead(s) ==> Frames(inflate, s) == Framed([], s) && Clean(s)
  {
  }

  /** What is appended does not change a frame at the head. */
  lemma HeadOfConcat(a: seq<byte>, b: seq<byte>)
    requires |a| >= 5
    ensures FrameSize(a + b) == FrameSize(a) && (a + b)[0] == a[0]
    ensures WholeHead(a) ==>
      var n := 5 + FrameSize(a);
      (a + b)[5..n] == a[5..n] && (a + b)[n..] == a[n..] + b
  {
    assert (a + b)[1..5] == a[1..5];
  }

  /** The stream is made of frames of 1 to 2,000,000 bytes, the last one perhaps unfinished. */
  predicate WellSized(s: seq<byte>) {
    |s| < 5 || (!BadSize(FrameSize(s)) && (|s| < 5 + FrameSize(s) || WellSized(s[5 + FrameSize(s)..])))
  }

  lemma WellSizedIsClean(s: seq<byte>)
    requires WellSized(s)
    ensures Clean(s)
  {
  }

  // ----- receiving on values -----

  datatype Receiver = Receiver(key: Option<State>, buf: seq<byte>, items: seq<Item>)

  ghost predicate KeyValid(key: Option<State>) { key.Some? ==> Valid(key.value) }

  function Decipher(key: Option<State>, data: seq<byte>): (plain: seq<byte>)
    requires KeyValid(key)
    ensures |plain| == |data|
  {
    match key
    case None => data
    case Some(st) => Crypt(st, data)
  }

  function KeyAfter(key: Option<State>, n: nat): (k: Option<State>)
    requires KeyValid(key)
    ensures KeyValid(k)
  {
    match key
    case None => None
    case Some(st) => Some(Skip(st, n))
  }

  /** One turn of the loop, with a chunk off the socket or, when none has arrived, an empty one. */
  function Receive(inflate: Inflate, rx: Receiver, chunk: seq<byte>): (rx': Receiver)
    requires KeyValid(rx.key)
    ensures KeyValid(rx'.key)
  {
    var f := Frames(inflate, rx.buf + Decipher(rx.key, chunk));
    Receiver(KeyAfter(rx.key, |chunk|), f.rest, rx.items + f.items)
  }

  function ReceiveAll(inflate: Inflate, rx: Receiver, chunks: seq<seq<byte>>): (rx': Receiver)
    requires KeyValid(rx.key)
    ensures KeyValid(rx'.key)
    decreases |chunks|
  {
    if chunks == [] then rx else ReceiveAll(inflate, Receive(inflate, rx, chunks[0]), chunks[1..])
  }

  function Concat(chunks: seq<seq<byte>>): seq<byte> {
    if chunks == [] then [] else chunks[0] + Concat(chunks[1..])
  }

  // ----- the loop itself -----

  class TcpReceiver {
    var recvKey: RC4?
    var buf: seq<byte>
    var items: seq<Item>

    ghost predicate Good()
      reads this, recvKey, if recvKey != null then {recvKey.s} else {}
    {
      recvKey != null ==> recvKey.Good()
    }

    ghost function View(): (rx: Receiver)
      requires Good()
      reads this, recvKey, if recvKey != null then {recvKey.s} else {}
      ensures KeyValid(rx.key)
    {
      Receiver(if recvKey == null then None else Some(recvKey.View()), buf, items)
    }

    /** With a key for an obfuscated connection, without one for a plain connection. */
    constructor (key: RC4?)
      requires key != null ==> key.Good()
      ensures recvKey == key && buf == [] && items == []
    {
      recvKey, buf, items := key, [], [];
    }

    /** One turn of tcp_probe's receive loop, for a chunk that has arrived. */
    method OnChunk(inflate: Inflate, data: seq<byte>)
      requires Good()
      modifies this, recvKey, if recvKey != null then {recvKey.s} else {}
      ensures recvKey == old(recvKey) && (recvKey != null ==> recvKey.s == old(recvKey.s))
      ensures Good() && View() == Receive(inflate, old(View()), data)
    {
      var chunk := data;
      if recvKey != null {
        chunk := recvKey.Encrypt(data);
      }
      buf := buf + chunk;
      FrameLoop(inflate);
    }

    /** Takes every whole frame off the buffer. */
    method FrameLoop(inflate: Inflate)
      modifies this`buf, this`items
      ensures Framed(items, buf) == Framed(old(items) + Frames(inflate, old(buf)).items, Frames(inflate, old(buf)).rest)
    {
      hide Deliver, Frames, Clean;
      ghost var all, before := Frames(inflate, buf), items;
      while |buf| >= 5
        invariant before + all.items == items + Frames(inflate, buf).items
        invariant all.rest == Frames(inflate, buf).rest
        decreases |buf|
      {
        FramesStep(inflate, buf);
        var proto := buf[0];
        var size := FrameSize(buf);
        if size == 0 || size > MAX_FRAME {
          items := items + [BadFrame(proto, size)];
          buf := [];
          break;
        }
        if |buf| < 5 + size {
          break;
        }
        var payload := buf[5..5 + size];
        ghost var d, later := [Deliver(inflate, proto, payload)], Frames(inflate, buf[5 + size..]).items;
        AppendAssoc(items, d, later);
        buf := buf[5 + size..];
        items := items + [Deliver(inflate, proto, payload)];
      }
      FramesStep(inflate, buf);
      assert items + [] == items;
    }
  }

  // ----- how the stream is cut does not matter -----

  /** Framing a, and then what it left together with b, is framing a + b. */
  lemma {:induction false} FramesConcat(inflate: Inflate, a: seq<byte>, b: seq<byte>)
    requires Clean(a + b)
    ensures var f := Frames(inflate, a);
      var g := Frames(inflate, f.rest + b);
      && Frames(inflate, a + b) == Framed(f.items + g.items, g.rest)
      && Clean(f.rest + b)
    decreases |a|
  {
    hide Deliver, Frames, Clean, FrameSize;
    FramesStep(inflate, a);
    if BadHead(a) {
      HeadOfConcat(a, b);
      FramesStep(inflate, a + b);
      assert a + b == a;
      FramesStep(inflate, []);
      assert [] + b == [];
    } else if WholeHead(a) {
      var n := 5 + FrameSize(a);
      HeadOfConcat(a, b);
      FramesStep(inflate, a + b);
      FramesConcat(inflate, a[n..], b);
      AppendAssoc([Deliver(inflate, a[0], a[5..n])], Frames(inflate, a[n..]).items,
                  Frames(inflate, Frames(inflate, a[n..]).rest + b).items);
    } else {
      assert [] + Frames(inflate, a + b).items == Frames(inflate, a + b).items;
    }
  }

  lemma DecipherConcat(key: Option<State>, a: seq<byte>, b: seq<byte>)
    requires KeyValid(key)
    ensures Decipher(key, a + b) == Decipher(key, a) + Decipher(KeyAfter(key, |a|), b)
    ensures KeyAfter(KeyAfter(key, |a|), |b|) == KeyAfter(key, |a + b|)
  {
    hide Crypt, Skip;
    if key.Some? {
      CryptConcat(key.value, a, b);
      SkipSkip(key.value, |a|, |b|);
    }
  }

  lemma ReceiveConcat(inflate: Inflate, rx: Receiver, a: seq<byte>, b: seq<byte>)
    requires KeyValid(rx.key)
    requires Clean(rx.buf + Decipher(rx.key, a + b))
    ensures Receive(inflate, Receive(inflate, rx, a), b) == Receive(inflate, rx, a + b)
    ensures var rx' := Receive(inflate, rx, a); Clean(rx'.buf + Decipher(rx'.key, b))
  {
    hide Frames, Clean, Decipher, KeyAfter;
    DecipherConcat(rx.key, a, b);
    var c, d := Decipher(rx.key, a), Decipher(KeyAfter(rx.key, |a|), b);
    assert rx.buf + Decipher(rx.key, a + b) == (rx.buf + c) + d;
    FramesConcat(inflate, rx.buf + c, d);
    var f := Frames(inflate, rx.buf + c);
    var g := Frames(inflate, f.rest + d);
    assert rx.items + f.items + g.items == rx.items + (f.items + g.items);
  }

  /**
   For a clean stream every way of cutting it into chunks reports the same items, keeps the same
   bytes over and leaves the cipher in the same state as receiving it in one piece.
   */
  lemma {:induction false} CutsDoNotMatter(inflate: Inflate, rx: Receiver, chunks: seq<seq<byte>>)
    requires KeyValid(rx.key) && chunks != []
    requires Clean(rx.buf + Decipher(rx.key, Concat(chunks)))
    ensures ReceiveAll(inflate, rx, chunks) == Receive(inflate, rx, Concat(chunks))
    decreases |chunks|
  {
    if |chunks| == 1 {
      assert Concat(chunks) == chunks[0] + Concat(chunks[1..]) == chunks[0];
    } else {
      ReceiveConcat(inflate, rx, chunks[0], Concat(chunks[1..]));
      CutsDoNotMatter(inflate, Receive(inflate, rx, chunks[0]), chunks[1..]);
    }
  }

  lemma FramesOfSome(inflate: Inflate, t: seq<byte>)
    requires t != []
    ensures Frames(inflate, t).items != [] || Frames(inflate, t).rest != []
  {
  }

  /** Where framing first meets a bad size. */
  function BadAt(s: seq<byte>): (p: nat)
    requires !Clean(s)
    ensures p + 5 < |s|
  {
    if BadSize(FrameSize(s)) then 0 else 5 + FrameSize(s) + BadAt(s[5 + FrameSize(s)..])
  }

  /** Cut at or behind its first bad header, a stream gives no more than it gives up to the cut. */
  lemma {:induction false} BadCut(inflate: Inflate, s: seq<byte>, q: nat)
    requires !Clean(s) && BadAt(s) + 5 <= q <= |s|
    ensures var f := Frames(inflate, s[..q]); f.rest == [] && Frames(inflate, s) == f
    decreases |s|
  {
    hide Deliver, Frames, Clean, FrameSize;
    BadAtStep(inflate, s);
    var a, b := s[..q], s[q..];
    assert a + b == s;
    HeadOfConcat(a, b);
    FramesStep(inflate, s);
    FramesStep(inflate, a);
    if !BadHead(s) {
      var n := 5 + FrameSize(s);
      BadCut(inflate, s[n..], q - n);
      assert a[n..] == s[n..][..q - n];
    }
  }

  lemma BadAtStep(inflate: Inflate, s: seq<byte>)
    requires !Clean(s)
    ensures if BadHead(s) then BadAt(s) == 0
      else WholeHead(s) && var n := 5 + FrameSize(s); !Clean(s[n..]) && BadAt(s) == n + BadAt(s[n..])
  {
  }

  lemma TwoChunks(inflate: Inflate, rx: Receiver, a: seq<byte>, b: seq<byte>)
    requires KeyValid(rx.key)
    ensures Concat([a, b]) == a + b
    ensures ReceiveAll(inflate, rx, [a, b]) == Receive(inflate, Receive(inflate, rx, a), b)
  {
    var one: seq<seq<byte>> := [b];
    var none: seq<seq<byte>> := [];
    assert [a, b][1..] == one && one[1..] == none;
    assert Concat(one) == b + [] == b;
    assert ReceiveAll(inflate, rx, [a, b]) == ReceiveAll(inflate, Receive(inflate, rx, a), one);
  }

  /** Every way of cutting the stream s that rx is about to receive gives the same result. */
  ghost predicate CutIndependent(inflate: Inflate, rx: Receiver, s: seq<byte>)
    requires KeyValid(rx.key)
  {
    forall chunks: seq<seq<byte>> | chunks != [] && Concat(chunks) == s ::
      ReceiveAll(inflate, rx, chunks) == Receive(inflate, rx, s)
  }

  /** No frame can be taken from the head of the buffer: the loop is waiting for more bytes. */
  predicate Waiting(buf: seq<byte>) { !BadHead(buf) && !WholeHead(buf) }

  lemma {:induction false} FramesLeaveWaiting(inflate: Inflate, buf: seq<byte>)
    ensures Waiting(Frames(inflate, buf).rest)
    decreases |buf|
  {
    hide Deliver, FrameSize;
    FramesStep(inflate, buf);
    if WholeHead(buf) { FramesLeaveWaiting(inflate, buf[5 + FrameSize(buf)..]); }
  }

  /** How much of s is received when the first bad header is complete. */
  function CutAt(rx: Receiver, s: seq<byte>): (k: nat)
    requires KeyValid(rx.key) && s != [] && !Clean(rx.buf + Decipher(rx.key, s))
    ensures k < |s|
  {
    var p := BadAt(rx.buf + Decipher(rx.key, s)) + 5;
    if p <= |rx.buf| then 0 else p - |rx.buf|
  }

  /** A waiting buffer does not hold the first bad header of what it becomes. */
  lemma BadIsAhead(buf: seq<byte>, d: seq<byte>, inflate: Inflate)
    requires Waiting(buf) && !Clean(buf + d)
    ensures BadAt(buf + d) + 5 > |buf|
  {
    hide FrameSize, Clean, BadAt;
    BadAtStep(inflate, buf + d);
    if |buf| >= 5 { HeadOfConcat(buf, d); }
  }

  /**
   A bad size with bytes behind it: cut right after that header, the stream gives another result. For
   a receiver that is waiting for bytes both pieces have some.
   */
  lemma BadCutDiffers(inflate: Inflate, rx: Receiver, s: seq<byte>)
    requires KeyValid(rx.key) && s != [] && !Clean(rx.buf + Decipher(rx.key, s))
    ensures var k := CutAt(rx, s);
      && Concat([s[..k], s[k..]]) == s
      && ReceiveAll(inflate, rx, [s[..k], s[k..]]) != Receive(inflate, rx, s)
      && (Waiting(rx.buf) ==> 0 < k)
  {
    hide ReceiveAll, Concat, BadAt, Clean, Frames, Decipher, KeyAfter, Waiting;
    var k := CutAt(rx, s);
    var a, b := s[..k], s[k..];
    TwoChunks(inflate, rx, a, b);
    assert a + b == s;
    DecipherConcat(rx.key, a, b);
    var c, e := Decipher(rx.key, a), Decipher(KeyAfter(rx.key, k), b);
    var whole := rx.buf + Decipher(rx.key, s);
    assert whole[..|rx.buf| + k] == rx.buf + c;
    BadCut(inflate, whole, |rx.buf| + k);
    var f, g := Frames(inflate, whole), Frames(inflate, e);
    assert [] + e == e;
    FramesOfSome(inflate, e);
    assert |rx.items + f.items + g.items| == |rx.items + f.items| + |g.items|;
    if Waiting(rx.buf) { BadIsAhead(rx.buf, Decipher(rx.key, s), inflate); }
  }

  /** Empty chunks take what is whole off the buffer, once. */
  lemma {:induction false} EmptyChunks(inflate: Inflate, rx: Receiver, chunks: seq<seq<byte>>)
    requires KeyValid(rx.key) && chunks != [] && Concat(chunks) == []
    ensures ReceiveAll(inflate, rx, chunks) == Receive(inflate, rx, [])
    decreases |chunks|
  {
    assert chunks[0] == [];
    var rx' := Receive(inflate, rx, []);
    if |chunks| > 1 {
      EmptyChunks(inflate, rx', chunks[1..]);
      EmptyTwice(inflate, rx);
    }
  }

  lemma EmptyTwice(inflate: Inflate, rx: Receiver)
    requires KeyValid(rx.key)
    ensures var rx' := Receive(inflate, rx, []); Receive(inflate, rx', []) == rx'
  {
    hide Frames, Decipher, KeyAfter, Clean;
    DecipherConcat(rx.key, [], []);
    var f := Frames(inflate, rx.buf + []);
    FramesLeaveWaiting(inflate, rx.buf + []);
    FramesStep(inflate, f.rest);
    assert Decipher(rx.key, []) == [] && f.rest + [] == f.rest;
    assert rx.items + f.items + [] == rx.items + f.items;
  }

  /**
   On a plain or an obfuscated connection, with whatever is left over from before: cutting makes no
   difference exactly if what is received is empty or clean.
   */
  lemma CleanIffCutIndependent(inflate: Inflate, rx: Receiver, s: seq<byte>)
    requires KeyValid(rx.key)
    ensures CutIndependent(inflate, rx, s) <==> s == [] || Clean(rx.buf + Decipher(rx.key, s))
  {
    hide Clean, Decipher, Receive, ReceiveAll;
    if s == [] || Clean(rx.buf + Decipher(rx.key, s)) {
      forall chunks: seq<seq<byte>> | chunks != [] && Concat(chunks) == s
        ensures ReceiveAll(inflate, rx, chunks) == Receive(inflate, rx, s)
      {
        if s == [] { EmptyChunks(inflate, rx, chunks); } else { CutsDoNotMatter(inflate, rx, chunks); }
      }
    } else {
      BadCutDiffers(inflate, rx, s);
    }
  }

  /** An empty piece makes no exception for a waiting receiver, and every receiver is left waiting. */
  lemma WaitingIsClean(inflate: Inflate, rx: Receiver, chunk: seq<byte>)
    requires KeyValid(rx.key)
    ensures Waiting(rx.buf) ==> Clean(rx.buf + Decipher(rx.key, []))
    ensures Waiting(Receive(inflate, rx, chunk).buf)
  {
    FramesLeaveWaiting(inflate, rx.buf + Decipher(rx.key, chunk));
    assert rx.buf + Decipher(rx.key, []) == rx.buf;
  }

  // ----- what the sender means -----

  /** One frame of the protocol, as a sender has it. */
  datatype Frame = Frame(proto: byte, payload: seq<byte>)

  /** On the wire: protocol byte, length in four bytes, payload. */
  function FrameBytes(f: Frame): seq<byte>
    requires |f.payload| < TWO_32
  {
    [f.proto] + Le32(|f.payload|) + f.payload
  }

  predicate Sendable(fs: seq<Frame>) {
    forall f :: f in fs ==> 1 <= |f.payload| <= 2_000_000
  }

  function Wire(fs: seq<Frame>): seq<byte>
    requires Sendable(fs)
  {
    if fs == [] then [] else FrameBytes(fs[0]) + Wire(fs[1..])
  }

  /** Shorter than a header, or a proper beginning of some frame. */
  ghost predicate Unfinished(t: seq<byte>) {
    |t| < 5 || exists f :: Sendable([f]) && t < FrameBytes(f)
  }

  /** The items are those of the frames, one for one: the first byte of a payload is its opcode. */
  ghost predicate ItemsOf(inflate: Inflate, fs: seq<Frame>, items: seq<Item>)
    requires Sendable(fs)
  {
    && |items| == |fs|
    && forall i :: 0 <= i < |fs| ==>
         var opcode, rest := fs[i].payload[0], fs[i].payload[1..];
         items[i] ==
           if fs[i].proto != 0xD4 then Message(fs[i].proto, opcode, rest)
           else if inflate(rest).Some? then Message(0xD4, opcode, inflate(rest).value)
           else InflateFailed(opcode)
  }

  /** A frame in front of anything is read as that frame. */
  lemma FrameHead(f: Frame, t: seq<byte>)
    requires |f.payload| < TWO_32
    ensures var s, n := FrameBytes(f) + t, |f.payload|;
      |s| >= 5 + n && s[0] == f.proto && FrameSize(s) == n && s[5..5 + n] == f.payload && s[5 + n..] == t
  {
    hide Le32, Val32;
    var s := FrameBytes(f) + t;
    assert s == [f.proto] + (Le32(|f.payload|) + (f.payload + t));
    assert s[1..5] == Le32(|f.payload|);
  }

  lemma UnfinishedWaits(t: seq<byte>)
    requires Unfinished(t)
    ensures Waiting(t)
  {
    hide Le32, Val32;
    if |t| >= 5 {
      var f :| Sendable([f]) && t < FrameBytes(f);
      assert f in [f];
      assert t[1..5] == FrameBytes(f)[1..5] == Le32(|f.payload|);
    }
  }

  /** Sent frames, with the next one begun, are received as those frames, and what was begun is kept. */
  lemma {:induction false} FramesOfWire(inflate: Inflate, fs: seq<Frame>, t: seq<byte>)
    requires Sendable(fs) && Unfinished(t)
    ensures var g := Frames(inflate, Wire(fs) + t);
      g.rest == t && ItemsOf(inflate, fs, g.items)
    decreases |fs|
  {
    hide Frames, FrameSize, FrameBytes, Unfinished;
    var s := Wire(fs) + t;
    FramesStep(inflate, s);
    if fs == [] {
      assert s == t;
      UnfinishedWaits(t);
    } else {
      var rest := Wire(fs[1..]) + t;
      assert s == FrameBytes(fs[0]) + rest;
      assert fs[0] in fs;
      FrameHead(fs[0], rest);
      assert Sendable(fs[1..]);
      FramesOfWire(inflate, fs[1..], t);
    }
  }

  /** A length of zero or above the limit behind sent frames is reported with that number, and all that follows is lost. */
  lemma {:induction false} BadLengthBehind(inflate: Inflate, fs: seq<Frame>, proto: byte, n: nat, t: seq<byte>)
    requires Sendable(fs) && n < TWO_32 && (n == 0 || n > 2_000_000)
    ensures var g := Frames(inflate, Wire(fs) + ([proto] + Le32(n) + t));
      && g.rest == [] && |g.items| == |fs| + 1 && g.items[|fs|] == BadFrame(proto, n)
      && ItemsOf(inflate, fs, g.items[..|fs|])
    decreases |fs|
  {
    hide Frames, FrameSize, FrameBytes, Le32, Val32;
    var bad := [proto] + Le32(n) + t;
    var s := Wire(fs) + bad;
    FramesStep(inflate, s);
    if fs == [] {
      assert s == bad;
      BadHeader(proto, n, t);
    } else {
      var rest := Wire(fs[1..]) + bad;
      assert s == FrameBytes(fs[0]) + rest;
      assert fs[0] in fs;
      FrameHead(fs[0], rest);
      BadLengthBehind(inflate, fs[1..], proto, n, t);
      var g, g' := Frames(inflate, s), Frames(inflate, rest);
      assert g.items[..|fs|] == [g.items[0]] + g'.items[..|fs| - 1];
    }
  }

  lemma BadHeader(proto: byte, n: nat, t: seq<byte>)
    requires n < TWO_32
    ensures var s := [proto] + Le32(n) + t; |s| >= 5 && s[0] == proto && FrameSize(s) == n
  {
    hide Le32, Val32;
    assert ([proto] + Le32(n) + t)[1..5] == Le32(n);
  }

  /** Well-sized streams are exactly what senders send, cut off anywhere. */
  lemma {:induction false} WellSizedIsSent(s: seq<byte>)
    ensures WellSized(s) <==> exists fs, t :: Sendable(fs) && Unfinished(t) && s == Wire(fs) + t
    decreases |s|
  {
    if WellSized(s) {
      var fs, t := FramesIn(s);
    }
    if fs, t :| Sendable(fs) && Unfinished(t) && s == Wire(fs) + t {
      SentIsWellSized(fs, t);
    }
  }

  lemma {:induction false} SentIsWellSized(fs: seq<Frame>, t: seq<byte>)
    requires Sendable(fs) && Unfinished(t)
    ensures WellSized(Wire(fs) + t)
    decreases |fs|
  {
    hide FrameSize, FrameBytes, Unfinished;
    if fs == [] {
      assert Wire(fs) + t == t;
      UnfinishedWaits(t);
    } else {
      var rest := Wire(fs[1..]) + t;
      assert Wire(fs) + t == FrameBytes(fs[0]) + rest;
      assert fs[0] in fs;
      FrameHead(fs[0], rest);
      SentIsWellSized(fs[1..], t);
    }
  }

  lemma {:induction false} FramesIn(s: seq<byte>) returns (fs: seq<Frame>, t: seq<byte>)
    requires WellSized(s)
    ensures Sendable(fs) && Unfinished(t) && s == Wire(fs) + t
    decreases |s|
  {
    hide FrameBytes, Unfinished;
    if WholeHead(s) {
      var n := FrameSize(s);
      var f := Frame(s[0], s[5..5 + n]);
      FrameAtHead(s);
      fs, t := FramesIn(s[5 + n..]);
      assert Sendable([f] + fs) && ([f] + fs)[1..] == fs;
      fs := [f] + fs;
    } else {
      WaitingIsUnfinished(s);
      fs, t := [], s;
      assert Wire(fs) + t == s;
    }
  }

  lemma FrameAtHead(s: seq<byte>)
    requires WholeHead(s)
    ensures var n := FrameSize(s); s == FrameBytes(Frame(s[0], s[5..5 + n])) + s[5 + n..]
  {
    hide Le32, Val32;
    var n := FrameSize(s);
    Le32OfVal32(s[1..5]);
    assert s == [s[0]] + s[1..5] + s[5..5 + n] + s[5 + n..];
  }

  lemma WaitingIsUnfinished(s: seq<byte>)
    requires Waiting(s)
    ensures Unfinished(s)
  {
    hide Le32, Val32;
    if |s| >= 5 {
      var n := FrameSize(s);
      var f := Frame(s[0], s[5..] + seq<byte>(n - (|s| - 5), _ => 0));
      Le32OfVal32(s[1..5]);
      assert FrameBytes(f) == [s[0]] + s[1..5] + f.payload;
      assert FrameBytes(f)[..|s|] == s;
      assert Sendable([f]) && s < FrameBytes(f);
    }
  }

  /**
   On an obfuscated connection the sender enciphers from the state the receiver deciphers from. Then,
   however the stream is cut, the frames sent are the frames received, and the cipher stays in step.
   */
  lemma SentIsReceived(inflate: Inflate, st: State, fs: seq<Frame>, t: seq<byte>, chunks: seq<seq<byte>>)
    requires Valid(st) && Sendable(fs) && Unfinished(t)
    requires chunks != [] && Concat(chunks) == Crypt(st, Wire(fs) + t)
    ensures var rx := ReceiveAll(inflate, Receiver(Some(st), [], []), chunks);
      rx.key == Some(Skip(st, |Wire(fs) + t|)) && rx.buf == t && ItemsOf(inflate, fs, rx.items)
  {
    hide Frames, FrameBytes, Unfinished, Crypt, Skip, Clean, ReceiveAll;
    var s := Wire(fs) + t;
    CryptTwice(st, s);
    assert [] + s == s;
    SentIsWellSized(fs, t);
    WellSizedIsClean(s);
    CutsDoNotMatter(inflate, Receiver(Some(st), [], []), chunks);
    FramesOfWire(inflate, fs, t);
    assert [] + Frames(inflate, s).items == Frames(inflate, s).items;
  }

  /** The same on a plain connection. */
  lemma SentIsReceivedPlain(inflate: Inflate, fs: seq<Frame>, t: seq<byte>, chunks: seq<seq<byte>>)
    requires Sendable(fs) && Unfinished(t)
    requires chunks != [] && Concat(chunks) == Wire(fs) + t
    ensures var rx := ReceiveAll(inflate, Receiver(None, [], []), chunks);
      rx.key == None && rx.buf == t && ItemsOf(inflate, fs, rx.items)
  {
    hide Frames, FrameBytes, Unfinished, Clean, ReceiveAll;
    var s := Wire(fs) + t;
    assert [] + s == s;
    SentIsWellSized(fs, t);
    WellSizedIsClean(s);
    CutsDoNotMatter(inflate, Receiver(None, [], []), chunks);
    FramesOfWire(inflate, fs, t);
    assert [] + Frames(inflate, s).items == Frames(inflate, s).items;
  }
}
