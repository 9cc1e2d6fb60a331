/** The gRPC length-prefixed frame codec and the append-then-drain loop of the inbound pump. */
module Frames {
  import opened Bytes

  /** Lengths are cast to 32 bits by the encoder, so this is the first size that does not survive. */
  const LENGTH_LIMIT := 0x1_0000_0000

  predicate Fits(m: Message) {
    |m| < LENGTH_LIMIT
  }

  predicate AllFit(ms: seq<Message>) {
    forall m | m in ms :: Fits(m)
  }

  /** The four big-endian bytes of `n as u32`: the cast keeps the low 32 bits. */
  function BigEndian(n: nat): seq<byte> {
    var n1 := n / 0x100;
    var n2 := n1 / 0x100;
    var n3 := n2 / 0x100;
    [(n3 % 0x100) as byte, (n2 % 0x100) as byte, (n1 % 0x100) as byte, (n % 0x100) as byte]
  }

  function FromBigEndian(a: byte, b: byte, c: byte, d: byte): nat {
    ((a as nat * 0x100 + b as nat) * 0x100 + c as nat) * 0x100 + d as nat
  }

  lemma LastDigit(high: nat, d: byte)
    ensures (high * 0x100 + d as nat) / 0x100 == high && (high * 0x100 + d as nat) % 0x100 == d as nat
  {
  }

  /** Reading back the four bytes gives the length that the cast kept. */
  lemma BigEndianValue(n: nat)
    ensures var e := BigEndian(n); FromBigEndian(e[0], e[1], e[2], e[3]) == n % LENGTH_LIMIT
  {
    var n1 := n / 0x100;
    var n2 := n1 / 0x100;
    var n3 := n2 / 0x100;
    var q := n3 / 0x100;
    var e := BigEndian(n);
    var low := FromBigEndian(e[0], e[1], e[2], e[3]);
    assert n == q * LENGTH_LIMIT + low && low < LENGTH_LIMIT;
    assert n / LENGTH_LIMIT == q;
  }

  lemma BigEndianUnique(a: byte, b: byte, c: byte, d: byte)
    ensures BigEndian(FromBigEndian(a, b, c, d)) == [a, b, c, d]
  {
    LastDigit((a as nat * 0x100 + b as nat) * 0x100 + c as nat, d);
    LastDigit(a as nat * 0x100 + b as nat, c);
    LastDigit(a as nat, b);
    LastDigit(0, a);
  }

  function Encode(m: Message): seq<byte> {
    [0] + BigEndian(|m|) + m
  }

  function EncodeAll(ms: seq<Message>): seq<byte> {
    if ms == [] then [] else Encode(ms[0]) + EncodeAll(ms[1..])
  }

  /** What one decoding attempt finds at the head of the buffer. */
  datatype Decoded = Incomplete | BadFlag | Frame(msg: Message, rest: seq<byte>)

  function DecodeOne(buf: seq<byte>): Decoded {
    if |buf| < 5 then Incomplete
    else if buf[0] != 0 then BadFlag
    else
      var len := FromBigEndian(buf[1], buf[2], buf[3], buf[4]);
      if |buf| < 5 + len then Incomplete else Frame(buf[5..5 + len], buf[5 + len..])
  }

  /** The layout of a Length-Prefixed-Message: a flag byte of 0, the length in four bytes with the most significant
      first, the message. */
  lemma EncodeLayout(m: Message)
    ensures var e := Encode(m);
            && |e| == 5 + |m| && e[0] == 0 && e[5..] == m
            && 0x100_0000 * e[1] as nat + 0x1_0000 * e[2] as nat + 0x100 * e[3] as nat + e[4] as nat
               == |m| % 0x1_0000_0000
  {
    BigEndianValue(|m|);
    assert Encode(m)[1..5] == BigEndian(|m|);
  }

  /** The length that the header of `buf` gives, most significant byte first. */
  function HeaderLength(buf: seq<byte>): nat
    requires |buf| >= 5
  {
    0x100_0000 * buf[1] as nat + 0x1_0000 * buf[2] as nat + 0x100 * buf[3] as nat + buf[4] as nat
  }

  /** Exactly which of the three answers a decoding attempt gives. */
  lemma DecodeOutcome(buf: seq<byte>)
    ensures DecodeOne(buf).BadFlag? <==> |buf| >= 5 && buf[0] != 0
    ensures DecodeOne(buf).Incomplete? <==> |buf| < 5 || (buf[0] == 0 && |buf| < 5 + HeaderLength(buf))
    ensures DecodeOne(buf).Frame? ==>
              DecodeOne(buf) == Frame(buf[5..5 + HeaderLength(buf)], buf[5 + HeaderLength(buf)..])
  {
  }

  lemma HeaderOfEncoded(m: Message, rest: seq<byte>)
    requires Fits(m)
    ensures var buf := Encode(m) + rest;
            |buf| == 5 + |m| + |rest| && buf[0] == 0 && FromBigEndian(buf[1], buf[2], buf[3], buf[4]) == |m|
  {
    BigEndianValue(|m|);
    var header := BigEndian(|m|);
    var buf := Encode(m) + rest;
    assert buf[1] == header[0] && buf[2] == header[1] && buf[3] == header[2] && buf[4] == header[3];
  }

  lemma DecodeOfEncoded(m: Message, rest: seq<byte>)
    requires Fits(m)
    ensures DecodeOne(Encode(m) + rest) == Frame(m, rest)
  {
    HeaderOfEncoded(m, rest);
    var buf := Encode(m) + rest;
    assert |Encode(m)| == 5 + |m| && Encode(m)[5..] == m;
    assert buf[5..5 + |m|] == m && buf[5 + |m|..] == rest;
  }

  lemma EncodedOfDecode(buf: seq<byte>)
    requires DecodeOne(buf).Frame?
    ensures Fits(DecodeOne(buf).msg) && buf == Encode(DecodeOne(buf).msg) + DecodeOne(buf).rest
  {
    var m, rest := DecodeOne(buf).msg, DecodeOne(buf).rest;
    BigEndianUnique(buf[1], buf[2], buf[3], buf[4]);
    assert buf[..5] == [0] + BigEndian(|m|);
    assert buf == buf[..5] + m + rest;
  }

  /** Decoding is the exact inverse of encoding: a frame comes out, leaving `rest`, precisely when
      the buffer is that message's encoding followed by `rest`. */
  lemma DecodeInvertsEncode(buf: seq<byte>, m: Message, rest: seq<byte>)
    ensures DecodeOne(buf) == Frame(m, rest) <==> Fits(m) && buf == Encode(m) + rest
  {
    if Fits(m) {
      DecodeOfEncoded(m, rest);
    }
    if DecodeOne(buf) == Frame(m, rest) {
      EncodedOfDecode(buf);
    }
  }

  /** The exact reach of the 32-bit length field: a message survives the wire iff it is shorter than 2^32. */
  lemma RoundTripExactlyBelowLimit(m: Message, rest: seq<byte>)
    ensures DecodeOne(Encode(m) + rest) == Frame(m, rest) <==> |m| < LENGTH_LIMIT
  {
    DecodeInvertsEncode(Encode(m) + rest, m, rest);
  }

  /** More bytes never change a frame that was already complete, and only append to what follows it. */
  lemma DecodeExtends(a: seq<byte>, b: seq<byte>)
    requires !DecodeOne(a).Incomplete?
    ensures DecodeOne(a).BadFlag? ==> DecodeOne(a + b).BadFlag?
    ensures DecodeOne(a).Frame? ==> DecodeOne(a + b) == Frame(DecodeOne(a).msg, DecodeOne(a).rest + b)
  {
    if DecodeOne(a).Frame? {
      var m, rest := DecodeOne(a).msg, DecodeOne(a).rest;
      DecodeInvertsEncode(a, m, rest);
      assert a + b == Encode(m) + (rest + b);
      DecodeInvertsEncode(a + b, m, rest + b);
    }
  }

  /** Messages decoded so far and the undecoded bytes kept for the next chunk. */
  datatype Drained = Drained(msgs: seq<Message>, residue: seq<byte>)

  /** Decode until nothing complete is left. A non-zero flag byte discards the whole buffer. */
  function Drain(buf: seq<byte>): Drained
    decreases |buf|
  {
    match DecodeOne(buf)
    case Incomplete => Drained([], buf)
    case BadFlag => Drained([], [])
    case Frame(m, rest) => var d := Drain(rest); Drained([m] + d.msgs, d.residue)
  }

  function Feed(d: Drained, chunk: seq<byte>): Drained {
    var x := Drain(d.residue + chunk);
    Drained(d.msgs + x.msgs, x.residue)
  }

  function FeedAll(d: Drained, chunks: seq<seq<byte>>): Drained
    decreases |chunks|
  {
    if chunks == [] then d else FeedAll(Feed(d, chunks[0]), chunks[1..])
  }

  const EMPTY := Drained([], [])

  /** Some frame boundary of `s` carries a non-zero flag with more than a frame header behind it. */
  predicate BadBoundary(s: seq<byte>)
    decreases |s|
  {
    match DecodeOne(s)
    case Incomplete => false
    case BadFlag => |s| > 5
    case Frame(_, rest) => BadBoundary(rest)
  }

  /** After a drain no complete frame is left behind. */
  lemma {:induction false} ResidueHoldsNoFrame(buf: seq<byte>)
    ensures DecodeOne(Drain(buf).residue).Incomplete?
    decreases |buf|
  {
    match DecodeOne(buf)
    case Incomplete =>
    case BadFlag =>
    case Frame(m, rest) => ResidueHoldsNoFrame(rest);
  }

  /** Draining in two instalments equals draining at once. */
  lemma {:induction false} DrainSplits(a: seq<byte>, b: seq<byte>)
    requires !BadBoundary(a + b)
    ensures !BadBoundary(Drain(a).residue + b)
    ensures Drain(a + b) == Feed(Drain(a), b)
    decreases |a|
  {
    match DecodeOne(a)
    case Incomplete =>
      assert [] + Drain(a + b).msgs == Drain(a + b).msgs;
    case BadFlag =>
      DecodeExtends(a, b);
      assert b == [];
      assert Drain(a).residue + b == [];
    case Frame(m, rest) =>
      DecodeExtends(a, b);
      DrainSplits(rest, b);
      var d := Drain(rest);
      assert [m] + (d.msgs + Drain(d.residue + b).msgs) == ([m] + d.msgs) + Drain(d.residue + b).msgs;
  }

  lemma Regroup<T>(a: seq<T>, b: seq<T>, c: seq<T>)
    ensures (a + b) + c == a + (b + c)
  {
  }

  /** Feeding is associative over the stream, so a chunk boundary can be moved or removed. */
  lemma FeedJoins(d: Drained, a: seq<byte>, b: seq<byte>)
    requires !BadBoundary(d.residue + (a + b))
    ensures !BadBoundary(Feed(d, a).residue + b)
    ensures Feed(Feed(d, a), b) == Feed(d, a + b)
  {
    Regroup(d.residue, a, b);
    DrainSplits(d.residue + a, b);
    var x := Drain(d.residue + a);
    Regroup(d.msgs, x.msgs, Drain(x.residue + b).msgs);
  }

  lemma {:induction false} FeedAllIsFeed(d: Drained, chunks: seq<seq<byte>>)
    requires !BadBoundary(d.residue + Flatten(chunks))
    requires DecodeOne(d.residue).Incomplete?
    ensures FeedAll(d, chunks) == Feed(d, Flatten(chunks))
    decreases |chunks|
  {
    if chunks == [] {
      assert d.residue + Flatten(chunks) == d.residue;
      assert d.msgs + [] == d.msgs;
    } else {
      FeedJoins(d, chunks[0], Flatten(chunks[1..]));
      ResidueHoldsNoFrame(d.residue + chunks[0]);
      FeedAllIsFeed(Feed(d, chunks[0]), chunks[1..]);
    }
  }

  /** A stream with a bad boundary loses everything behind it when it arrives in one piece. */
  lemma {:induction false} BadBoundaryDiscards(s: seq<byte>)
    requires BadBoundary(s)
    ensures |s| > 5 && Drain(s).residue == [] && Drain(s[..|s| - 1]).residue == []
    decreases |s|
  {
    match DecodeOne(s)
    case BadFlag =>
    case Frame(m, rest) =>
      BadBoundaryDiscards(rest);
      DecodeInvertsEncode(s, m, rest);
      var cut := rest[..|rest| - 1];
      assert s[..|s| - 1] == Encode(m) + cut;
      DecodeInvertsEncode(s[..|s| - 1], m, cut);
  }

  lemma EveryChunkingAgrees(s: seq<byte>, chunks: seq<seq<byte>>)
    requires !BadBoundary(s) && Flatten(chunks) == s
    ensures FeedAll(EMPTY, chunks) == Drain(s)
  {
    assert EMPTY.residue + Flatten(chunks) == s;
    FeedAllIsFeed(EMPTY, chunks);
    FeedAfterNothing(EMPTY, s);
    assert [] + Drain(s).msgs == Drain(s).msgs;
  }

  lemma SomeChunkingDiffers(s: seq<byte>) returns (chunks: seq<seq<byte>>)
    requires BadBoundary(s)
    ensures Flatten(chunks) == s && FeedAll(EMPTY, chunks).residue != Drain(s).residue
  {
    BadBoundaryDiscards(s);
    var front, last := s[..|s| - 1], s[|s| - 1];
    LastByteSurvives(front, last);
    assert s == front + [last];
    chunks := [front, [last]];
  }

  /** Decoding does not depend on how the stream is cut into chunks exactly when no bad boundary is met:
      every chunking of `s` gives the messages and residue of `s` in one piece iff `!BadBoundary(s)`. */
  lemma ChunkIndependence(s: seq<byte>)
    ensures (forall chunks :: Flatten(chunks) == s ==> FeedAll(EMPTY, chunks) == Drain(s)) <==> !BadBoundary(s)
  {
    if !BadBoundary(s) {
      forall chunks | Flatten(chunks) == s
        ensures FeedAll(EMPTY, chunks) == Drain(s)
      {
        EveryChunkingAgrees(s, chunks);
      }
    } else {
      var chunks := SomeChunkingDiffers(s);
    }
  }

  lemma FeedAllPair(d: Drained, a: seq<byte>, b: seq<byte>)
    ensures FeedAll(d, [a, b]) == Feed(Feed(d, a), b)
    ensures Flatten([a, b]) == a + b
  {
    assert [a, b][1..] == [b] && [b][1..] == [];
    assert FeedAll(Feed(d, a), [b]) == FeedAll(Feed(Feed(d, a), b), []);
    assert Flatten([b]) == b + Flatten([]);
  }

  lemma FeedAfterNothing(d: Drained, chunk: seq<byte>)
    requires d.residue == []
    ensures Feed(d, chunk) == Drained(d.msgs + Drain(chunk).msgs, Drain(chunk).residue)
  {
    assert [] + chunk == chunk;
  }

  lemma ShortDrain(b: seq<byte>)
    requires |b| < 5
    ensures Drain(b) == Drained([], b)
  {
  }

  /** The chunking that exposes a bad boundary: hold back the last byte. */
  lemma LastByteSurvives(front: seq<byte>, last: byte)
    requires Drain(front).residue == []
    ensures Flatten([front, [last]]) == front + [last]
    ensures FeedAll(EMPTY, [front, [last]]).residue == [last]
  {
    FeedAllPair(EMPTY, front, [last]);
    FeedAfterNothing(EMPTY, front);
    FeedAfterNothing(Feed(EMPTY, front), [last]);
    ShortDrain([last]);
  }

  /** A stream of encoded messages followed by an incomplete tail drains to exactly those messages and that tail. */
  lemma {:induction false} DrainOfEncoded(ms: seq<Message>, tail: seq<byte>)
    requires AllFit(ms) && DecodeOne(tail).Incomplete?
    ensures Drain(EncodeAll(ms) + tail) == Drained(ms, tail)
    ensures !BadBoundary(EncodeAll(ms) + tail)
  {
    if ms == [] {
      assert EncodeAll(ms) + tail == tail;
    } else {
      Regroup(Encode(ms[0]), EncodeAll(ms[1..]), tail);
      DrainOfFrame(ms[0], EncodeAll(ms[1..]) + tail);
      DrainOfEncoded(ms[1..], tail);
      assert [ms[0]] + ms[1..] == ms;
    }
  }

  /** Conversely, what a drain takes off the buffer is exactly the encoding of the messages it returns. */
  lemma {:induction false} DrainTakesEncodings(s: seq<byte>)
    ensures AllFit(Drain(s).msgs)
    ensures EncodeAll(Drain(s).msgs) <= s
    ensures var tail := s[|EncodeAll(Drain(s).msgs)|..];
            if DecodeOne(tail).BadFlag? then Drain(s).residue == [] else Drain(s).residue == tail
    decreases |s|
  {
    match DecodeOne(s)
    case Incomplete =>
    case BadFlag =>
    case Frame(m, rest) =>
      DecodeInvertsEncode(s, m, rest);
      DrainTakesEncodings(rest);
      var d := Drain(rest);
      assert Drain(s).msgs[1..] == d.msgs;
      var e := EncodeAll(d.msgs);
      assert EncodeAll(Drain(s).msgs) == Encode(m) + e;
      assert s[|Encode(m) + e|..] == rest[|e|..];
  }

  lemma PrefixTail(a: seq<byte>, b: seq<byte>, s: seq<byte>)
    requires s <= a + b && |s| >= |a|
    ensures s == a + s[|a|..] && s[|a|..] <= b
    ensures s == a + b ==> s[|a|..] == b
  {
    assert (a + b)[..|a|] == a && (a + b)[|a|..] == b;
  }

  /** However a stream of whole frames is cut short, what decodes is a prefix of what was encoded,
      and nothing is missing when it was not cut. */
  lemma {:induction false} DrainOfPrefix(ms: seq<Message>, s: seq<byte>)
    requires AllFit(ms) && s <= EncodeAll(ms)
    ensures Drain(s).msgs <= ms && !BadBoundary(s)
    ensures s == EncodeAll(ms) ==> Drain(s).msgs == ms
    decreases |ms|
  {
    if ms != [] {
      if |s| < |Encode(ms[0])| {
        PartialFrame(ms[0], s);
      } else {
        var rest := s[|Encode(ms[0])|..];
        PrefixTail(Encode(ms[0]), EncodeAll(ms[1..]), s);
        DrainOfPrefix(ms[1..], rest);
        DrainAfterFrame(ms, s, rest);
      }
    }
  }

  lemma DrainAfterFrame(ms: seq<Message>, s: seq<byte>, rest: seq<byte>)
    requires ms != [] && Fits(ms[0]) && s == Encode(ms[0]) + rest
    requires Drain(rest).msgs <= ms[1..] && !BadBoundary(rest)
    ensures Drain(s).msgs <= ms && !BadBoundary(s)
    ensures Drain(rest).msgs == ms[1..] ==> Drain(s).msgs == ms
  {
    DrainOfFrame(ms[0], rest);
    assert [ms[0]] + ms[1..] == ms;
  }

  lemma DrainOfFrame(m: Message, rest: seq<byte>)
    requires Fits(m)
    ensures Drain(Encode(m) + rest) == Drained([m] + Drain(rest).msgs, Drain(rest).residue)
    ensures BadBoundary(Encode(m) + rest) == BadBoundary(rest)
  {
    DecodeOfEncoded(m, rest);
  }

  lemma PartialFrame(m: Message, s: seq<byte>)
    requires Fits(m) && s < Encode(m)
    ensures DecodeOne(s).Incomplete?
  {
    BigEndianValue(|m|);
    if |s| >= 5 {
      assert s[0] == 0 && s[1..5] == Encode(m)[1..5] == BigEndian(|m|);
    }
  }

  /** One round of the decoding loop, with `msgs` already taken out of the buffer. */
  lemma DrainRound(msgs: seq<Message>, buf: seq<byte>)
    ensures Drained(msgs + Drain(buf).msgs, Drain(buf).residue) ==
            match DecodeOne(buf)
            case Incomplete => Drained(msgs, buf)
            case BadFlag => Drained(msgs, [])
            case Frame(m, rest) => Drained(msgs + [m] + Drain(rest).msgs, Drain(rest).residue)
  {
    match DecodeOne(buf)
    case Frame(m, rest) => Regroup(msgs, [m], Drain(rest).msgs);
    case _ => assert msgs + [] == msgs;
  }

  /** The buffer the pump owns (`BytesMut`): bytes are appended at the back and split off the front. */
  class FrameBuffer {
    var bytes: seq<byte>

    constructor ()
      ensures bytes == []
    {
      bytes := [];
    }

    method TryDecodeOne() returns (r: Option<Message>)
      modifies this
      ensures match DecodeOne(old(bytes))
              case Incomplete => r == None && bytes == old(bytes)
              case BadFlag => r == None && bytes == []
              case Frame(m, rest) => r == Some(m) && bytes == rest
    {
      if |bytes| < 5 {
        return None;
      }
      if bytes[0] != 0 {
        bytes := [];
        return None;
      }
      var len := FromBigEndian(bytes[1], bytes[2], bytes[3], bytes[4]);
      if |bytes| < 5 + len {
        return None;
      }
      r := Some(bytes[..5 + len][5..]);
      bytes := bytes[5 + len..];
    }
  }
}
