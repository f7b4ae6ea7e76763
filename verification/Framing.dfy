/**
 Length-prefixed messages (src/network/TestContext.cpp): a four-byte header in
 network order, then that many bytes of body. The parser consumes a MsgBuffer
 that is filled piece by piece from a socket.
 */
module Framing {
  import opened MsgBuffers

  /** `message_length_` is a signed 32-bit field assigned from an unsigned number. */
  function ToInt32(n: nat): int
    requires n < 0x1_0000_0000
  {
    if n < 0x8000_0000 then n else n - 0x1_0000_0000
  }

  /**
   Where the parser stops: what it keeps for the next call, what is left in
   the buffer and what it has delivered; or that it never stops, because part
   of a body is there and the loop has no exit for that.
   */
  datatype Outcome =
    | Stops(inBody: bool, length: int, body: seq<byte>, rest: seq<byte>, delivered: seq<seq<byte>>)
    | Spins

  function Prepend(first: seq<seq<byte>>, o: Outcome): Outcome {
    if o.Spins? then Spins else o.(delivered := first + o.delivered)
  }

  /** The loop of `ParseMessage`, from one of its states and with `bytes` readable. */
  function Parse(callback: bool, inBody: bool, length: int, body: seq<byte>, bytes: seq<byte>): Outcome
    decreases |bytes|, inBody
  {
    if bytes == [] then Stops(inBody, length, body, [], [])
    else if !inBody then
      if |bytes| < 4 then Stops(false, length, body, bytes, [])
      else Parse(callback, true, ToInt32(BigEndian(bytes[..4])), body, bytes[4..])
    else if 0 <= length <= |bytes| then
      var message := body + bytes[..length];
      if callback then Prepend([message], Parse(callback, false, 0, [], bytes[length..]))
      else Parse(callback, false, 0, message, bytes[length..])
    else Spins
  }

  lemma PrependTwice(a: seq<seq<byte>>, b: seq<seq<byte>>, o: Outcome)
    ensures Prepend(a, Prepend(b, o)) == Prepend(a + b, o)
    ensures Prepend([], o) == o
  {
    assert o.Stops? ==> a + (b + o.delivered) == a + b + o.delivered && [] + o.delivered == o.delivered;
  }

  lemma PrependSpins(sent: seq<seq<byte>>)
    ensures Prepend(sent, Spins) == Spins
  {
  }

  lemma EmptyStep(callback: bool, inBody: bool, length: int, body: seq<byte>)
    ensures Parse(callback, inBody, length, body, []) == Stops(inBody, length, body, [], [])
  {
  }

  lemma HeaderStep(callback: bool, length: int, body: seq<byte>, bytes: seq<byte>)
    requires |bytes| > 0
    ensures Parse(callback, false, length, body, bytes)
         == if |bytes| < 4 then Stops(false, length, body, bytes, [])
            else Parse(callback, true, ToInt32(BigEndian(bytes[..4])), body, bytes[4..])
  {
  }

  lemma BodyStep(callback: bool, length: int, body: seq<byte>, bytes: seq<byte>)
    requires |bytes| > 0
    ensures Parse(callback, true, length, body, bytes)
         == if !(0 <= length <= |bytes|) then Spins
            else Prepend(if callback then [body + bytes[..length]] else [],
                         Parse(callback, false, 0, if callback then [] else body + bytes[..length], bytes[length..]))
  {
    if 0 <= length <= |bytes| && !callback {
      PrependTwice([], [], Parse(callback, false, 0, body + bytes[..length], bytes[length..]));
    }
  }

  class TestContext {
    const callback: bool
    var inBody: bool
    var length: int
    var body: seq<byte>
    var delivered: seq<seq<byte>>  // the messages passed to the callback

    constructor (callback: bool)
      ensures this.callback == callback && !inBody && length == 0 && body == [] && delivered == []
    {
      this.callback, inBody, length, body, delivered := callback, false, 0, [], [];
    }

    ghost predicate Reaches(buf: MsgBuffer, before: seq<seq<byte>>, o: Outcome)
      requires buf.Valid()
      reads this, buf, buf.data
    {
      && o.Stops?
      && (inBody, length, body, buf.Contents()) == (o.inBody, o.length, o.body, o.rest)
      && delivered == before + o.delivered
    }

    /** Where the loop would stop from here. */
    ghost function Ahead(buf: MsgBuffer): Outcome
      requires buf.Valid()
      reads this, buf, buf.data
    {
      Parse(callback, inBody, length, body, buf.Contents())
    }

    /** Part of a body is there: no pass of the loop changes anything any more, and the loop has no exit for that. */
    ghost predicate Stuck(buf: MsgBuffer)
      requires buf.Valid()
      reads this, buf, buf.data
    {
      inBody && buf.Contents() != [] && !(0 <= length <= |buf.Contents()|)
    }

    /** `stuck` stands for the source's loop going round without end, from the state that is left here. */
    method ParseMessage(buf: MsgBuffer) returns (stuck: bool)
      requires buf.Valid()
      modifies this, buf`reader, buf`writer
      ensures buf.Valid() && (stuck <==> old(Ahead(buf)).Spins?)
      ensures if stuck then Stuck(buf) else Reaches(buf, old(delivered), old(Ahead(buf)))
    {
      hide Parse, Prepend, Ahead, ToInt32, BigEndian;
      ghost var outcome, sent := Ahead(buf), [];
      PrependTwice([], [], outcome);
      while buf.ReadableBytes() > 0
        invariant buf.Valid() && delivered == old(delivered) + sent && outcome == Prepend(sent, Ahead(buf))
        decreases buf.ReadableBytes(), inBody
      {
        PrependSpins(sent);
        if !inBody {
          if buf.ReadableBytes() >= 4 {
            TakeHeader(buf);
          } else {
            NothingMore(buf, sent);
            return false;
          }
        } else if 0 <= length <= buf.ReadableBytes() {
          ghost var now := TakeBody(buf);
          PrependTwice(sent, now, Ahead(buf));
          assert old(delivered) + sent + now == old(delivered) + (sent + now);
          sent := sent + now;
        } else {
          StuckSpins(buf);
          return true;
        }
      }
      NothingMore(buf, sent);
      return false;
    }

    lemma NothingMore(buf: MsgBuffer, sent: seq<seq<byte>>)
      requires buf.Valid() && (buf.Contents() == [] || (!inBody && |buf.Contents()| < 4))
      ensures Prepend(sent, Ahead(buf)) == Stops(inBody, length, body, buf.Contents(), sent)
    {
      assert sent + [] == sent;
    }

    lemma StuckSpins(buf: MsgBuffer)
      requires buf.Valid() && Stuck(buf)
      ensures Ahead(buf).Spins?
    {
    }

    method TakeHeader(buf: MsgBuffer)
      requires buf.Valid() && !inBody && buf.ReadableBytes() >= 4
      modifies this`length, this`inBody, buf`reader, buf`writer
      ensures buf.Valid() && buf.Contents() == old(buf.Contents())[4..] && inBody
      ensures length == ToInt32(BigEndian(old(buf.Contents())[..4]))
      ensures Ahead(buf) == old(Ahead(buf))
    {
      HeaderStep(callback, length, body, buf.Contents());
      hide Parse;
      var n := buf.ReadInt32();
      length := ToInt32(n);
      inBody := true;
    }

    method TakeBody(buf: MsgBuffer) returns (ghost now: seq<seq<byte>>)
      requires buf.Valid() && inBody && 0 <= length <= buf.ReadableBytes() && buf.ReadableBytes() > 0
      modifies this, buf`reader, buf`writer
      ensures buf.Valid() && buf.Contents() == old(buf.Contents())[old(length)..]
      ensures now == if callback then [old(body) + old(buf.Contents())[..old(length)]] else []
      ensures !inBody && length == 0 && delivered == old(delivered) + now
      ensures body == if callback then [] else old(body) + old(buf.Contents())[..old(length)]
      ensures old(Ahead(buf)) == Prepend(now, Ahead(buf))
    {
      BodyStep(callback, length, body, buf.Contents());
      hide Parse;
      var tmp := buf.RetrieveAsString(length);
      body := body + tmp;
      length, inBody := 0, false;
      now := if callback then [body] else [];
      if callback {
        delivered := delivered + [body];
        body := [];
      }
    }

    /** The message callback of a TCP connection after one successful read. */
    method Receive(buf: MsgBuffer, chunk: seq<byte>) returns (stuck: bool)
      requires buf.Valid() && |chunk| <= buf.Offered()
      modifies this, buf, buf.data
      ensures buf.Valid() && (buf.data == old(buf.data) || fresh(buf.data))
      ensures var o := old(Parse(callback, inBody, length, body, buf.Contents() + chunk));
              (stuck <==> o.Spins?) && if stuck then Stuck(buf) else Reaches(buf, old(delivered), o)
    {
      var _ := buf.ReadFd(false, chunk);
      stuck := ParseMessage(buf);
    }
  }

  /** The sender's side. */
  function Encode(messages: seq<seq<byte>>): (stream: seq<byte>)
    requires forall m <- messages :: |m| < 0x8000_0000
  {
    if messages == [] then [] else ToBigEndian(|messages[0]|) + messages[0] + Encode(messages[1..])
  }

  /** What goes over the wire for one message: its length in network order, then its bytes. */
  lemma OnTheWire(m: seq<byte>)
    requires |m| < 0x8000_0000
    ensures Encode([m]) == [|m| / 0x100_0000, |m| / 0x1_0000 % 0x100, |m| / 0x100 % 0x100, |m| % 0x100] + m
    ensures |m| < 256 ==> Encode([m]) == [0, 0, 0, |m|] + m
  {
    assert Encode([m][1..]) == [];
  }

  /** A header alone: its four bytes are taken as a number in two's complement, the most significant byte first. */
  lemma HeaderAsRead(callback: bool, h: seq<byte>)
    requires |h| == 4
    ensures var n := 0x100_0000 * (h[0] as int) + 0x1_0000 * (h[1] as int) + 0x100 * (h[2] as int) + h[3];
            Parse(callback, false, 0, [], h)
            == Stops(true, if h[0] < 128 then n else n - 0x1_0000_0000, [], [], [])
  {
    HeaderStep(callback, 0, [], h);
    assert h[..4] == h;
    EmptyStep(callback, true, ToInt32(BigEndian(h)), []);
  }

  /** A length with the sign bit set is negative: no body is ever long enough. */
  lemma NegativeLengthSpins(callback: bool, bytes: seq<byte>)
    requires |bytes| > 4 && bytes[0] >= 128
    ensures Parse(callback, false, 0, [], bytes).Spins?
  {
    BigEndianSpells(bytes[..4]);
    HeaderStep(callback, 0, [], bytes);
    BodyStep(callback, ToInt32(BigEndian(bytes[..4])), [], bytes[4..]);
  }

  /** Whether a cut after `p` bytes of the stream falls strictly inside the body of a message. */
  predicate CutsBody(messages: seq<seq<byte>>, p: nat) {
    if messages == [] || p <= 4 then false
    else p < 4 + |messages[0]| || CutsBody(messages[1..], p - 4 - |messages[0]|)
  }

  /** What the first `p` bytes of the stream should lead to. */
  function Expected(messages: seq<seq<byte>>, p: nat): Outcome
    requires forall m <- messages :: |m| < 0x8000_0000
    requires p <= |Encode(messages)|
  {
    if p < 4 then Stops(false, 0, [], Encode(messages)[..p], [])
    else if p == 4 then Stops(true, |messages[0]|, [], [], [])
    else if p < 4 + |messages[0]| then Spins
    else Prepend([messages[0]], Expected(messages[1..], p - 4 - |messages[0]|))
  }

  lemma {:induction false} ParsePrefix(messages: seq<seq<byte>>, p: nat)
    requires forall m <- messages :: |m| < 0x8000_0000
    requires p <= |Encode(messages)|
    ensures Parse(true, false, 0, [], Encode(messages)[..p]) == Expected(messages, p)
    ensures Expected(messages, p).Spins? <==> CutsBody(messages, p)
  {
    if p >= 4 {
      var m, rest := messages[0], Encode(messages[1..]);
      var bytes := Encode(messages)[..p];
      BigEndianRoundTrip(|m|);
      assert bytes[..4] == ToBigEndian(|m|);
      assert bytes[4..] == (m + rest)[..p - 4];
      if p > 4 && p >= 4 + |m| {
        ParsePrefix(messages[1..], p - 4 - |m|);
        assert bytes[4..][..|m|] == m;
        assert bytes[4..][|m|..] == rest[..p - 4 - |m|];
        assert [] + m == m;
      }
    }
  }

  /** A whole stream delivers every message; only a final empty one waits for a further byte. */
  function Complete(messages: seq<seq<byte>>): seq<seq<byte>> {
    if |messages| > 0 && |messages[|messages| - 1]| == 0 then messages[..|messages| - 1] else messages
  }

  lemma CompleteStep(messages: seq<seq<byte>>)
    requires |messages| > 1
    ensures Complete(messages) == [messages[0]] + Complete(messages[1..])
  {
    var rest := messages[1..];
    assert messages[|messages| - 1] == rest[|rest| - 1];
    assert messages == [messages[0]] + rest && messages[..|messages| - 1] == [messages[0]] + rest[..|rest| - 1];
  }

  lemma {:induction false} ExpectedOfAll(messages: seq<seq<byte>>)
    requires forall m <- messages :: |m| < 0x8000_0000
    ensures var o := Expected(messages, |Encode(messages)|);
            o.Stops? && o.rest == [] && o.delivered == Complete(messages)
  {
    if messages != [] {
      var rest := messages[1..];
      assert |Encode(messages)| == 4 + |messages[0]| + |Encode(rest)|;
      if rest == [] {
        assert [messages[0]] + [] == messages;
      } else {
        assert |Encode(rest)| >= 4;
        hide Encode, Complete;
        ExpectedOfAll(rest);
        CompleteStep(messages);
      }
    }
  }

  function Concat(pieces: seq<seq<byte>>): seq<byte> {
    if pieces == [] then [] else Concat(pieces[..|pieces| - 1]) + pieces[|pieces| - 1]
  }

  lemma {:induction false} ConcatFirst(pieces: seq<seq<byte>>)
    requires pieces != []
    ensures Concat(pieces) == pieces[0] + Concat(pieces[1..])
  {
    var n := |pieces| - 1;
    if n == 0 {
      assert pieces[..0] == pieces[1..] == [];
    } else {
      ConcatFirst(pieces[..n]);
      assert pieces[..n][1..] == pieces[1..][..n - 1];
    }
  }

  /** With nobody to deliver to, the bodies of all messages pile up in one string. */
  lemma {:induction false} WithoutCallback(messages: seq<seq<byte>>, body: seq<byte>)
    requires forall m <- messages :: 0 < |m| < 0x8000_0000
    ensures Parse(false, false, 0, body, Encode(messages)) == Stops(false, 0, body + Concat(messages), [], [])
    decreases |messages|
  {
    hide Parse;
    if messages == [] {
      EmptyStep(false, false, 0, body);
      assert body + [] == body;
    } else {
      var m, rest, bytes := messages[0], Encode(messages[1..]), Encode(messages);
      BigEndianRoundTrip(|m|);
      assert bytes[..4] == ToBigEndian(|m|) && bytes[4..] == m + rest && bytes[4..][..|m|] == m;
      assert bytes[4..][|m|..] == rest;
      HeaderStep(false, 0, body, bytes);
      BodyStep(false, |m|, body, bytes[4..]);
      WithoutCallback(messages[1..], body + m);
      ConcatFirst(messages);
      assert body + m + Concat(messages[1..]) == body + (m + Concat(messages[1..]));
      PrependTwice([], [], Parse(false, false, 0, body + m, rest));
    }
  }

  /** Parsing is incremental: what a first piece leaves behind is all that matters for the next. */
  lemma {:induction false} ParseAppend(inBody: bool, length: int, body: seq<byte>, a: seq<byte>, b: seq<byte>)
    requires !Parse(true, inBody, length, body, a).Spins?
    ensures var o := Parse(true, inBody, length, body, a);
            Parse(true, inBody, length, body, a + b)
            == Prepend(o.delivered, Parse(true, o.inBody, o.length, o.body, o.rest + b))
    decreases |a|, inBody
  {
    hide Parse;
    var o := Parse(true, inBody, length, body, a);
    if a == [] {
      EmptyStep(true, inBody, length, body);
      assert a + b == b == [] + b;
      PrependTwice([], [], Parse(true, inBody, length, body, b));
    } else if !inBody {
      HeaderStep(true, length, body, a);
      if |a| >= 4 {
        HeaderStep(true, length, body, a + b);
        assert (a + b)[..4] == a[..4] && (a + b)[4..] == a[4..] + b;
        ParseAppend(true, ToInt32(BigEndian(a[..4])), body, a[4..], b);
      } else {
        PrependTwice([], [], Parse(true, inBody, length, body, a + b));
      }
    } else {
      BodyStep(true, length, body, a);
      BodyStep(true, length, body, a + b);
      assert (a + b)[..length] == a[..length] && (a + b)[length..] == a[length..] + b;
      ParseAppend(false, 0, [], a[length..], b);
      var o' := Parse(true, false, 0, [], a[length..]);
      PrependTwice([body + a[..length]], o'.delivered, Parse(true, o'.inBody, o'.length, o'.body, o'.rest + b));
    }
  }

  /** The connection's life: pieces arrive one after the other, each followed by `ParseMessage`. */
  function Feed(pieces: seq<seq<byte>>): Outcome {
    if pieces == [] then Stops(false, 0, [], [], [])
    else
      var o := Feed(pieces[..|pieces| - 1]);
      if o.Spins? then Spins
      else Prepend(o.delivered, Parse(true, o.inBody, o.length, o.body, o.rest + pieces[|pieces| - 1]))
  }

  lemma {:induction false} FeedIsParse(pieces: seq<seq<byte>>)
    requires !Feed(pieces).Spins?
    ensures Feed(pieces) == Parse(true, false, 0, [], Concat(pieces))
  {
    if pieces != [] {
      var before := pieces[..|pieces| - 1];
      FeedIsParse(before);
      ParseAppend(false, 0, [], Concat(before), pieces[|pieces| - 1]);
    }
  }

  lemma {:induction false} ConcatPrefix(pieces: seq<seq<byte>>, k: nat)
    requires k <= |pieces|
    ensures Concat(pieces[..k]) <= Concat(pieces)
    decreases |pieces| - k
  {
    if k == |pieces| {
      assert pieces[..k] == pieces;
    } else {
      ConcatPrefix(pieces, k + 1);
      assert pieces[..k + 1][..k] == pieces[..k];
    }
  }

  /** Some cut between two pieces, or the end of the last one, falls strictly inside a body. */
  ghost predicate SomeCutInBody(messages: seq<seq<byte>>, pieces: seq<seq<byte>>) {
    exists k :: 0 <= k <= |pieces| && CutsBody(messages, |Concat(pieces[..k])|)
  }

  lemma FeedStep(before: seq<seq<byte>>, piece: seq<byte>)
    ensures Feed([]) == Stops(false, 0, [], [], [])
    ensures var o := Feed(before);
            Feed(before + [piece]) == if o.Spins? then Spins
                                      else Prepend(o.delivered, Parse(true, o.inBody, o.length, o.body, o.rest + piece))
  {
    assert (before + [piece])[..|before|] == before;
  }

  /** If the parser is not stuck yet, the last piece decides. */
  lemma LastPieceDecides(messages: seq<seq<byte>>, before: seq<seq<byte>>, piece: seq<byte>)
    requires forall m <- messages :: |m| < 0x8000_0000
    requires !Feed(before).Spins? && Concat(before) + piece <= Encode(messages)
    ensures Feed(before + [piece]).Spins? <==> CutsBody(messages, |Concat(before) + piece|)
  {
    hide Parse, Encode, CutsBody, Expected, Feed, Concat;
    FeedStep(before, piece);
    FeedIsParse(before);
    ParseAppend(false, 0, [], Concat(before), piece);
    ParsePrefix(messages, |Concat(before) + piece|);
    assert Encode(messages)[..|Concat(before) + piece|] == Concat(before) + piece;
  }

  lemma {:induction false} SpinsExactlyAtBodyCuts(messages: seq<seq<byte>>, pieces: seq<seq<byte>>)
    requires forall m <- messages :: |m| < 0x8000_0000
    requires Concat(pieces) <= Encode(messages)
    ensures Feed(pieces).Spins? <==> SomeCutInBody(messages, pieces)
  {
    hide Parse, Encode;
    if pieces == [] {
      assert forall k :: 0 <= k <= |pieces| ==> pieces[..k] == [];
    } else {
      var n := |pieces| - 1;
      var before := pieces[..n];
      ConcatPrefix(pieces, n);
      SpinsExactlyAtBodyCuts(messages, before);
      assert pieces[..n + 1] == pieces == before + [pieces[n]];
      assert forall k :: 0 <= k <= n ==> before[..k] == pieces[..k];
      if !Feed(before).Spins? {
        LastPieceDecides(messages, before, pieces[n]);
      }
    }
  }

  /**
   Main theorem: a stream of encoded messages, arriving in any pieces, makes
   the parser spin if and only if some piece ends strictly inside a body; in
   every other segmentation it delivers the messages, in order and unchanged.
   */
  lemma FramingRoundTrip(messages: seq<seq<byte>>, pieces: seq<seq<byte>>)
    requires forall m <- messages :: |m| < 0x8000_0000
    requires Concat(pieces) == Encode(messages)
    ensures Feed(pieces).Spins? <==> SomeCutInBody(messages, pieces)
    ensures !Feed(pieces).Spins? ==> Feed(pieces).rest == [] && Feed(pieces).delivered == Complete(messages)
    ensures !Feed(pieces).Spins? && (forall m <- messages :: m != []) ==> Feed(pieces).delivered == messages
  {
    SpinsExactlyAtBodyCuts(messages, pieces);
    if !Feed(pieces).Spins? {
      FeedIsParse(pieces);
      ParsePrefix(messages, |Encode(messages)|);
      assert Encode(messages)[..|Encode(messages)|] == Encode(messages);
      ExpectedOfAll(messages);
      assert |messages| > 0 ==> messages[|messages| - 1] in messages;
    }
  }

  /**
   A connection that reads `pieces` one after the other, until a piece is more
   than one read can bring or the parser is stuck.
   */
  method Serve(pieces: seq<seq<byte>>) returns (context: TestContext, buf: MsgBuffer, n: nat, stuck: bool)
    ensures buf.Valid() && n <= |pieces|
    ensures stuck <==> Feed(pieces[..n]).Spins?
    ensures !stuck ==> context.Reaches(buf, [], Feed(pieces[..n]))
    ensures n < |pieces| ==> stuck || |pieces[n]| > buf.Offered()
    ensures buf.initial == 1024
  {
    hide Parse, Feed;
    context := new TestContext(true);
    buf := new MsgBuffer(INITIAL_SIZE);
    n, stuck := 0, false;
    FeedStep([], []);
    while n < |pieces| && !stuck && |pieces[n]| <= buf.Offered()
      invariant buf.Valid() && n <= |pieces| && fresh(context) && fresh(buf) && fresh(buf.data) && context.callback
      invariant stuck <==> Feed(pieces[..n]).Spins?
      invariant !stuck ==> context.Reaches(buf, [], Feed(pieces[..n]))
      decreases |pieces| - n, !stuck
    {
      ghost var o := Feed(pieces[..n]);
      FeedStep(pieces[..n], pieces[n]);
      assert pieces[..n + 1] == pieces[..n] + [pieces[n]];
      assert [] + o.delivered == o.delivered;
      stuck := context.Receive(buf, pieces[n]);
      n := n + 1;
    }
  }

  /**
   The round trip, run by the parser and the buffer themselves, up to the first
   of the pieces, if any, that is more than one read can bring; a read always
   has room for 65536 bytes.
   */
  method Deliver(ghost messages: seq<seq<byte>>, pieces: seq<seq<byte>>)
    returns (delivered: seq<seq<byte>>, n: nat, stuck: bool)
    requires forall m <- messages :: |m| < 0x8000_0000
    requires Concat(pieces) == Encode(messages)
    ensures n <= |pieces| && (n < |pieces| ==> stuck || |pieces[n]| > 65536)
    ensures stuck <==> SomeCutInBody(messages, pieces[..n])
    ensures n == |pieces| && !stuck ==> delivered == Complete(messages)
  {
    var context, buf;
    context, buf, n, stuck := Serve(pieces);
    ConcatPrefix(pieces, n);
    SpinsExactlyAtBodyCuts(messages, pieces[..n]);
    if n == |pieces| {
      assert pieces[..n] == pieces;
      FramingRoundTrip(messages, pieces);
    }
    delivered := context.delivered;
  }

  /** The smallest case of a cut in a body: any message of two bytes or more, whose fifth byte ends a piece. */
  lemma FifthByteCutSpins(m: seq<byte>)
    requires 2 <= |m| < 0x8000_0000
    ensures var stream := Encode([m]);
            Feed([stream[..5], stream[5..]]).Spins?
  {
    var stream := Encode([m]);
    var pieces := [stream[..5], stream[5..]];
    assert pieces[..1] == [stream[..5]] && Concat(pieces[..1]) == stream[..5];
    assert pieces[..2] == pieces && Concat(pieces) == stream;
    assert CutsBody([m], |Concat(pieces[..1])|);
    SpinsExactlyAtBodyCuts([m], pieces);
  }
}
