/**
 Length-prefixed message framing, as the JavaScript and TypeScript clients do it.

 A frame is a four-byte big-endian length and that many bytes of JSON.  Sockets
 deliver a byte stream in arbitrary chunks; each client keeps the undelivered
 bytes in a buffer.  `parse` and `print` stand for the JSON library.
 */
module Framing {
  import opened Wrappers
  import opened Values

  type Bytes = seq<Byte>

  const COMPRESSED_FLAG: nat := 0x8000_0000
  const MAX_FRAME: nat := 16 * 1024 * 1024

  function ReadUInt32BE(b: Bytes): nat
    requires |b| >= 4
  {
    (b[0] as int) * 0x100_0000 + (b[1] as int) * 0x1_0000 + (b[2] as int) * 0x100 + b[3]
  }

  /** Each byte takes eight bits off the number. */
  lemma ShiftedTwice(n: nat)
    ensures n / 0x1_0000 == n / 0x100 / 0x100 && n / 0x100_0000 == n / 0x100 / 0x100 / 0x100
  {
  }

  function WriteUInt32BE(n: nat): (b: Bytes)
    requires n < 0x1_0000_0000
    ensures |b| == 4 && ReadUInt32BE(b) == n
  {
    ShiftedTwice(n);
    var m, k := n / 0x100, n / 0x100 / 0x100;
    assert n == m * 0x100 + n % 0x100 && m == k * 0x100 + m % 0x100 && k == k / 0x100 * 0x100 + k % 0x100;
    [n / 0x100_0000, n / 0x1_0000 % 0x100, n / 0x100 % 0x100, n % 0x100]
  }

  // ---- readers ----

  /** What a reader makes of the front of its buffer: wait for more, give up, or take a frame with its messages. */
  datatype Front<M> = Wait | Fail | Frame(msgs: seq<M>, size: nat)

  /** The messages taken from a buffer, and the bytes left in it. */
  function Consume<M>(front: Bytes -> Front<M>, buf: Bytes): (seq<M>, Bytes)
    decreases |buf|
  {
    match front(buf)
    case Frame(msgs, size) =>
      if 0 < size <= |buf| then
        var (more, rest) := Consume(front, buf[size..]);
        (msgs + more, rest)
      else ([], buf)
    case Wait => ([], buf)
    case Fail => ([], buf)
  }

  /** A frame lies in the buffer. */
  ghost predicate Within<M>(front: Bytes -> Front<M>, buf: Bytes) {
    front(buf).Frame? ==> 0 < front(buf).size <= |buf|
  }

  /** More bytes cannot change a decision already taken. */
  ghost predicate Stable<M>(front: Bytes -> Front<M>, buf: Bytes, more: Bytes) {
    !front(buf).Wait? ==> front(buf + more) == front(buf)
  }

  ghost predicate Steady<M(!new)>(front: Bytes -> Front<M>) {
    (forall buf :: Within(front, buf)) && forall buf, more :: Stable(front, buf, more)
  }

  lemma ConsumeStops<M>(front: Bytes -> Front<M>, buf: Bytes)
    requires !front(buf).Frame?
    ensures Consume(front, buf) == ([], buf)
  {
  }

  lemma ConsumeGoesOn<M>(front: Bytes -> Front<M>, buf: Bytes, msgs: seq<M>, size: nat, done: seq<M>)
    requires front(buf) == Frame(msgs, size) && 0 < size <= |buf|
    ensures done + Consume(front, buf).0 == done + msgs + Consume(front, buf[size..]).0
    ensures Consume(front, buf).1 == Consume(front, buf[size..]).1
  {
    Associates(done, msgs, Consume(front, buf[size..]).0);
  }

  lemma Associates<M>(a: seq<M>, b: seq<M>, c: seq<M>)
    ensures a + (b + c) == a + b + c
  {
  }

  // ---- chunking does not matter ----

  lemma {:induction false} ConsumeAppend<M(!new)>(front: Bytes -> Front<M>, a: Bytes, b: Bytes)
    requires Steady(front)
    ensures var (msgs, rest) := Consume(front, a);
            var (msgs', rest') := Consume(front, rest + b);
            Consume(front, a + b) == (msgs + msgs', rest')
    decreases |a|
  {
    assert Within(front, a) && Stable(front, a, b);
    if front(a).Frame? {
      var msgs, size := front(a).msgs, front(a).size;
      assert (a + b)[size..] == a[size..] + b;
      ConsumeAppend(front, a[size..], b);
      var (more, rest) := Consume(front, a[size..]);
      Associates(msgs, more, Consume(front, rest + b).0);
    } else {
      assert [] + Consume(front, a + b).0 == Consume(front, a + b).0;
    }
  }

  function Concat(chunks: seq<Bytes>): Bytes {
    if chunks == [] then [] else Concat(chunks[..|chunks| - 1]) + chunks[|chunks| - 1]
  }

  // ---- the JavaScript reader ----

  /** A set flag, an oversized length or an unparsable body is fatal; a short buffer waits. */
  function JsFrontOf<M>(parse: Bytes -> Option<M>, buf: Bytes): Front<M> {
    if |buf| < 4 then Wait
    else
      var raw := ReadUInt32BE(buf);
      if raw >= COMPRESSED_FLAG then Fail
      else if raw > MAX_FRAME then Fail
      else if |buf| < 4 + raw then Wait
      else
        match parse(buf[4..4 + raw])
        case None => Fail
        case Some(msg) => Frame([msg], 4 + raw)
  }

  function JsFront<M>(parse: Bytes -> Option<M>): Bytes -> Front<M> { buf => JsFrontOf(parse, buf) }

  lemma HeaderStays(buf: Bytes, more: Bytes)
    requires |buf| >= 4
    ensures ReadUInt32BE(buf + more) == ReadUInt32BE(buf)
    ensures var size := 4 + ReadUInt32BE(buf); size <= |buf| ==> (buf + more)[4..size] == buf[4..size]
  {
  }

  /** More bytes cannot change a decision already taken at the front. */
  lemma JsSteady<M(!new)>(parse: Bytes -> Option<M>)
    ensures Steady(JsFront(parse))
  {
    forall buf, more ensures Stable(JsFront(parse), buf, more) {
      if |buf| >= 4 { HeaderStays(buf, more); }
    }
  }

  class JsReader<M> {
    const parse: Bytes -> Option<M>
    var inbound: Bytes
    var dispatched: seq<M>
    var closed: bool

    constructor (parse: Bytes -> Option<M>)
      ensures this.parse == parse && inbound == [] && dispatched == [] && !closed
    {
      this.parse := parse;
      inbound, dispatched, closed := [], [], false;
    }

    method OnData(chunk: Bytes)
      modifies this
      ensures dispatched == old(dispatched) + Consume(JsFront(parse), old(inbound) + chunk).0
      ensures inbound == Consume(JsFront(parse), old(inbound) + chunk).1
      ensures closed <==> old(closed) || JsFrontOf(parse, inbound).Fail?
    {
      inbound := if |inbound| > 0 then inbound + chunk else chunk;
      assert inbound == old(inbound) + chunk;
      ghost var front := JsFront(parse);
      ghost var total := Consume(front, inbound);
      while |inbound| >= 4
        invariant closed == old(closed)
        invariant dispatched + Consume(front, inbound).0 == old(dispatched) + total.0
        invariant Consume(front, inbound).1 == total.1
        decreases |inbound|
      {
        var raw := ReadUInt32BE(inbound);
        if raw >= COMPRESSED_FLAG || raw > MAX_FRAME {
          closed := true;
          break;
        }
        if |inbound| < 4 + raw { break; }
        var msg := parse(inbound[4..4 + raw]);
        if msg.None? {
          closed := true;
          break;
        }
        ConsumeGoesOn(front, inbound, [msg.value], 4 + raw, dispatched);
        inbound, dispatched := inbound[4 + raw..], dispatched + [msg.value];
      }
      ConsumeStops(front, inbound);
    }
  }

  /** However a stream is cut, the reader dispatches what it would dispatch for the whole, and stops where it would. */
  method FeedJs<M(!new)>(parse: Bytes -> Option<M>, chunks: seq<Bytes>) returns (msgs: seq<M>, failed: bool)
    ensures msgs == Consume(JsFront(parse), Concat(chunks)).0
    ensures failed <==> JsFrontOf(parse, Consume(JsFront(parse), Concat(chunks)).1).Fail?
  {
    var reader := new JsReader<M>(parse);
    ghost var front := JsFront(parse);
    JsSteady(parse);
    for i := 0 to |chunks|
      invariant fresh(reader) && reader.parse == parse
      invariant reader.dispatched == Consume(front, Concat(chunks[..i])).0
      invariant reader.inbound == Consume(front, Concat(chunks[..i])).1
      invariant reader.closed <==> front(reader.inbound).Fail?
    {
      ghost var buffered := reader.inbound;
      assert chunks[..i + 1][..i] == chunks[..i];
      ConsumeAppend(front, Concat(chunks[..i]), chunks[i]);
      assert Stable(front, buffered, chunks[i]);
      reader.OnData(chunks[i]);
    }
    assert chunks[..|chunks|] == chunks;
    msgs, failed := reader.dispatched, reader.closed;
  }

  // ---- framing ----

  /** The JavaScript `_send` refuses bodies above `MAX_FRAME`; the TypeScript `send` those a header cannot state. */
  function Framed(limit: nat, body: Bytes): Option<Bytes>
    requires limit < 0x1_0000_0000
  {
    if |body| > limit then None else Some(WriteUInt32BE(|body|) + body)
  }

  function FrameAll<M>(limit: nat, print_: M -> Bytes, msgs: seq<M>): Option<Bytes>
    requires limit < 0x1_0000_0000
  {
    if msgs == [] then Some([])
    else
      match (FrameAll(limit, print_, msgs[..|msgs| - 1]), Framed(limit, print_(msgs[|msgs| - 1])))
      case (Some(a), Some(b)) => Some(a + b)
      case _ => None
  }

  /** The frames of all but the last message, then the last frame. */
  lemma FrameAllSplit<M>(limit: nat, print_: M -> Bytes, msgs: seq<M>) returns (a: Bytes, b: Bytes)
    requires limit < 0x1_0000_0000 && msgs != [] && FrameAll(limit, print_, msgs).Some?
    ensures FrameAll(limit, print_, msgs[..|msgs| - 1]) == Some(a) && Framed(limit, print_(msgs[|msgs| - 1])) == Some(b)
    ensures FrameAll(limit, print_, msgs) == Some(a + b)
  {
    a, b := FrameAll(limit, print_, msgs[..|msgs| - 1]).value, Framed(limit, print_(msgs[|msgs| - 1])).value;
  }

  /** A frame alone in the buffer is taken as its one message. */
  ghost predicate TakenAlone<M>(front: Bytes -> Front<M>, frame: Bytes, msg: M) {
    frame != [] && front(frame) == Frame([msg], |frame|)
  }

  lemma TakenLast<M(!new)>(front: Bytes -> Front<M>, a: Bytes, b: Bytes, msgs: seq<M>, last: M)
    requires Steady(front) && Consume(front, a) == (msgs, []) && TakenAlone(front, b, last)
    requires Consume(front, []) == ([], [])
    ensures Consume(front, a + b) == (msgs + [last], [])
  {
    ConsumeAppend(front, a, b);
    assert [] + b == b && b[|b|..] == [] && [last] + [] == [last];
  }

  /** A reader that takes each frame as its message takes all of them as the list. */
  lemma {:induction false} FramesReadBack<M(!new)>(front: Bytes -> Front<M>, limit: nat, print_: M -> Bytes,
                                                   msgs: seq<M>)
    requires limit < 0x1_0000_0000 && FrameAll(limit, print_, msgs).Some?
    requires Steady(front) && Consume(front, []) == ([], [])
    requires forall m :: m in msgs && |print_(m)| <= limit ==> TakenAlone(front, Framed(limit, print_(m)).value, m)
    ensures Consume(front, FrameAll(limit, print_, msgs).value) == (msgs, [])
  {
    if msgs != [] {
      var rest, last := msgs[..|msgs| - 1], msgs[|msgs| - 1];
      var a, b := FrameAllSplit(limit, print_, msgs);
      FramesReadBack(front, limit, print_, rest);
      assert last in msgs;
      TakenLast(front, a, b, rest, last);
      assert msgs == rest + [last];
    }
  }

  /** A frame states the length of its body. */
  lemma FrameStates(body: Bytes)
    requires |body| < 0x1_0000_0000
    ensures var f := WriteUInt32BE(|body|) + body;
            |f| == 4 + |body| && ReadUInt32BE(f) == |body| && f[4..4 + |body|] == body
  {
    HeaderStays(WriteUInt32BE(|body|), body);
  }

  lemma JsTakesFrame<M>(parse: Bytes -> Option<M>, body: Bytes, m: M)
    requires |body| <= MAX_FRAME && parse(body) == Some(m)
    ensures TakenAlone(JsFront(parse), Framed(MAX_FRAME, body).value, m)
  {
    FrameStates(body);
  }

  /** Any list of messages, framed and cut into any chunks, is dispatched as that list. */
  method RoundTripJs<M(!new)>(parse: Bytes -> Option<M>, print_: M -> Bytes, msgs: seq<M>, chunks: seq<Bytes>)
    returns (received: seq<M>, failed: bool)
    requires forall m :: m in msgs ==> parse(print_(m)) == Some(m)
    requires FrameAll(MAX_FRAME, print_, msgs) == Some(Concat(chunks))
    ensures received == msgs && !failed
  {
    forall m | m in msgs && |print_(m)| <= MAX_FRAME
      ensures TakenAlone(JsFront(parse), Framed(MAX_FRAME, print_(m)).value, m)
    {
      JsTakesFrame(parse, print_(m), m);
    }
    JsSteady(parse);
    ConsumeStops(JsFront(parse), []);
    FramesReadBack(JsFront(parse), MAX_FRAME, print_, msgs);
    received, failed := FeedJs(parse, chunks);
  }

  // ---- the TypeScript reader: no limits, and unparsable bodies are skipped ----

  function SkipBad<M>(msg: Option<M>): seq<M> { if msg.Some? then [msg.value] else [] }

  function TsFrontOf<M>(parse: Bytes -> Option<M>, buf: Bytes): Front<M> {
    if |buf| < 4 || |buf| < 4 + ReadUInt32BE(buf) then Wait
    else
      var size := 4 + ReadUInt32BE(buf);
      Frame(SkipBad(parse(buf[4..size])), size)
  }

  function TsFront<M>(parse: Bytes -> Option<M>): Bytes -> Front<M> { buf => TsFrontOf(parse, buf) }

  lemma TsSteady<M(!new)>(parse: Bytes -> Option<M>)
    ensures Steady(TsFront(parse))
  {
    forall buf, more ensures Stable(TsFront(parse), buf, more) {
      if |buf| >= 4 { HeaderStays(buf, more); }
    }
  }

  class TcpTransport<M> {
    const parse: Bytes -> Option<M>
    var buf: Bytes
    var handled: seq<M>

    constructor (parse: Bytes -> Option<M>)
      ensures this.parse == parse && buf == [] && handled == []
    {
      this.parse := parse;
      buf, handled := [], [];
    }

    method OnData(chunk: Bytes)
      modifies this
      ensures handled == old(handled) + Consume(TsFront(parse), old(buf) + chunk).0
      ensures buf == Consume(TsFront(parse), old(buf) + chunk).1
    {
      buf := buf + chunk;
      Drain();
    }

    method Drain()
      modifies this
      ensures handled == old(handled) + Consume(TsFront(parse), old(buf)).0
      ensures buf == Consume(TsFront(parse), old(buf)).1
    {
      ghost var front := TsFront(parse);
      while |buf| >= 4
        invariant handled + Consume(front, buf).0 == old(handled) + Consume(front, old(buf)).0
        invariant Consume(front, buf).1 == Consume(front, old(buf)).1
        decreases |buf|
      {
        var len := ReadUInt32BE(buf);
        if |buf| < 4 + len { break; }
        var body := buf[4..4 + len];
        var msg := parse(body);
        ConsumeGoesOn(front, buf, SkipBad(msg), 4 + len, handled);
        buf := buf[4 + len..];
        if msg.Some? {
          handled := handled + [msg.value];
        } else {
          assert handled == handled + SkipBad(msg);
        }
      }
      ConsumeStops(front, buf);
    }
  }

  method FeedTs<M(!new)>(parse: Bytes -> Option<M>, chunks: seq<Bytes>) returns (msgs: seq<M>)
    ensures msgs == Consume(TsFront(parse), Concat(chunks)).0
  {
    var transport := new TcpTransport<M>(parse);
    ghost var front := TsFront(parse);
    TsSteady(parse);
    for i := 0 to |chunks|
      invariant fresh(transport) && transport.parse == parse
      invariant transport.handled == Consume(front, Concat(chunks[..i])).0
      invariant transport.buf == Consume(front, Concat(chunks[..i])).1
    {
      assert chunks[..i + 1][..i] == chunks[..i];
      ConsumeAppend(front, Concat(chunks[..i]), chunks[i]);
      transport.OnData(chunks[i]);
    }
    assert chunks[..|chunks|] == chunks;
    msgs := transport.handled;
  }

  lemma TsTakesFrame<M>(parse: Bytes -> Option<M>, body: Bytes, m: M)
    requires |body| < 0x1_0000_0000 && parse(body) == Some(m)
    ensures TakenAlone(TsFront(parse), WriteUInt32BE(|body|) + body, m)
  {
    FrameStates(body);
  }

  method RoundTripTs<M(!new)>(parse: Bytes -> Option<M>, print_: M -> Bytes, msgs: seq<M>, chunks: seq<Bytes>)
    returns (received: seq<M>)
    requires forall m :: m in msgs ==> parse(print_(m)) == Some(m)
    requires FrameAll(0xFFFF_FFFF, print_, msgs) == Some(Concat(chunks))
    ensures received == msgs
  {
    forall m | m in msgs && |print_(m)| <= 0xFFFF_FFFF
      ensures TakenAlone(TsFront(parse), Framed(0xFFFF_FFFF, print_(m)).value, m)
    {
      TsTakesFrame(parse, print_(m), m);
    }
    TsSteady(parse);
    ConsumeStops(TsFront(parse), []);
    FramesReadBack(TsFront(parse), 0xFFFF_FFFF, print_, msgs);
    received := FeedTs(parse, chunks);
  }

  // ---- the two readers compared ----

  /** A front the JavaScript reader does not fail on is the same to both. */
  lemma FrontsAgree<M>(parse: Bytes -> Option<M>, buf: Bytes)
    ensures !JsFrontOf(parse, buf).Fail? ==> TsFrontOf(parse, buf) == JsFrontOf(parse, buf)
  {
  }

  /** The two readers dispatch the same messages from every stream the JavaScript one reads without failing. */
  lemma {:induction false} ReadersAgree<M>(parse: Bytes -> Option<M>, buf: Bytes)
    requires !JsFrontOf(parse, Consume(JsFront(parse), buf).1).Fail?
    ensures Consume(TsFront(parse), buf) == Consume(JsFront(parse), buf)
    decreases |buf|
  {
    FrontsAgree(parse, buf);
    match JsFrontOf(parse, buf) {
      case Frame(_, size) => ReadersAgree(parse, buf[size..]);
      case Wait =>
      case Fail =>
    }
  }

  /** Past a failure the JavaScript reader delivers nothing; the other one goes on. */
  lemma {:induction false} JsDeliversPrefix<M>(parse: Bytes -> Option<M>, buf: Bytes)
    ensures Consume(JsFront(parse), buf).0 <= Consume(TsFront(parse), buf).0
    decreases |buf|
  {
    FrontsAgree(parse, buf);
    match JsFrontOf(parse, buf) {
      case Frame(_, size) => JsDeliversPrefix(parse, buf[size..]);
      case Wait =>
      case Fail =>
    }
  }
}
