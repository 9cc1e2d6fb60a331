/** The CONNECT tunnel: the scan for the end of the proxy's response head (section 9.3.6 of RFC 9110, framing in
    section 2.1 of RFC 9112), and the stream that replays the bytes read past it. */
module Tunnel {
  import opened Bytes

  const CHUNK := 512
  const HEAD_LIMIT := 0x4000

  /** Section 2.1 of RFC 9112: the head ends with an empty line. */
  predicate TerminatorAt(s: seq<byte>, i: nat) {
    i + 4 <= |s| && s[i] == 13 && s[i + 1] == 10 && s[i + 2] == 13 && s[i + 3] == 10
  }

  function FirstFrom(s: seq<byte>, i: nat): (r: Option<nat>)
    ensures r.Some? ==> i + 4 <= r.value <= |s|
    decreases |s| - i
  {
    if i + 4 > |s| then None
    else if TerminatorAt(s, i) then Some(i + 4)
    else FirstFrom(s, i + 1)
  }

  /** Where the first CRLFCRLF ends. */
  function HeadEnd(s: seq<byte>): (r: Option<nat>)
    ensures r.Some? ==> 4 <= r.value <= |s|
  {
    FirstFrom(s, 0)
  }

  /** `e` is the end of the first terminator of `s`. */
  ghost predicate IsHeadEnd(s: seq<byte>, e: nat) {
    4 <= e && TerminatorAt(s, e - 4) && forall j: nat | j < e - 4 :: !TerminatorAt(s, j)
  }

  lemma {:induction false} FirstFromFinds(s: seq<byte>, i: nat)
    requires forall j: nat | j < i :: !TerminatorAt(s, j)
    ensures match FirstFrom(s, i)
            case Some(e) => IsHeadEnd(s, e)
            case None => forall j: nat :: !TerminatorAt(s, j)
    decreases |s| - i
  {
    if i + 4 <= |s| && !TerminatorAt(s, i) {
      FirstFromFinds(s, i + 1);
    }
  }

  lemma HeadEndUnique(s: seq<byte>, e: nat, f: nat)
    requires IsHeadEnd(s, e) && IsHeadEnd(s, f)
    ensures e == f
  {
    assert TerminatorAt(s, e - 4) && TerminatorAt(s, f - 4);
  }

  lemma TerminatorIsCrlfCrlf(s: seq<byte>, i: nat)
    ensures TerminatorAt(s, i) <==> i + 4 <= |s| && s[i..i + 4] == AsciiBytes("\r\n\r\n")
  {
    var crlf := AsciiBytes("\r\n\r\n");
    assert "\r\n\r\n"[0] == '\r' && "\r\n\r\n"[1] == '\n' && "\r\n\r\n"[2] == '\r' && "\r\n\r\n"[3] == '\n';
    assert crlf == [13, 10, 13, 10];
    if i + 4 <= |s| {
      assert s[i..i + 4] == [s[i], s[i + 1], s[i + 2], s[i + 3]];
    }
  }

  /** The end found is that of the first CRLFCRLF. */
  lemma HeadEndFinds(s: seq<byte>)
    ensures forall e: nat :: HeadEnd(s) == Some(e) <==> IsHeadEnd(s, e)
  {
    FirstFromFinds(s, 0);
    forall e: nat | IsHeadEnd(s, e) ensures HeadEnd(s) == Some(e) {
      assert TerminatorAt(s, e - 4);
      HeadEndUnique(s, e, HeadEnd(s).value);
    }
  }

  /** More bytes never move an end already found; and a prefix has an end exactly when it reaches that of the whole. */
  lemma HeadEndOfPrefix(s: seq<byte>, p: seq<byte>)
    requires p <= s
    ensures HeadEnd(p) == if HeadEnd(s).Some? && HeadEnd(s).value <= |p| then HeadEnd(s) else None
  {
    HeadEndFinds(s);
    HeadEndFinds(p);
    assert forall j: nat :: TerminatorAt(p, j) ==> TerminatorAt(s, j);
    assert forall j: nat | j + 4 <= |p| :: TerminatorAt(s, j) ==> TerminatorAt(p, j);
    if HeadEnd(s).Some? && HeadEnd(s).value <= |p| {
      assert IsHeadEnd(p, HeadEnd(s).value);
    }
    if HeadEnd(p).Some? {
      assert IsHeadEnd(s, HeadEnd(p).value);
    }
  }

  // ---- The scan --------------------------------------------------------------------------

  /** One read of the socket: up to 512 bytes, none meaning the proxy closed, or an error. */
  datatype SocketRead = Got(data: seq<byte>) | IoError

  datatype ScanResult =
    | Found(head: seq<byte>, extra: seq<byte>)
    | Closed | TooLarge | Broken
    | Waiting(held: seq<byte>)     // the next read has not returned yet

  function Scan(buf: seq<byte>, rs: seq<SocketRead>): ScanResult
    decreases |rs|
  {
    if rs == [] then Waiting(buf)
    else if rs[0].IoError? then Broken
    else if rs[0].data == [] then Closed
    else
      var buf' := buf + rs[0].data;
      match HeadEnd(buf')
      case Some(e) => Found(buf'[..e], buf'[e..])
      case None => if |buf'| > HEAD_LIMIT then TooLarge else Scan(buf', rs[1..])
  }

  /** What `AsyncRead` promises of each read into the 512-byte chunk. */
  predicate Proper(rs: seq<SocketRead>) {
    forall r | r in rs && r.Got? :: |r.data| <= CHUNK
  }

  /** Reads that brought bytes: neither end of file nor an error among them. */
  predicate AllData(rs: seq<SocketRead>) {
    forall r | r in rs :: r.Got? && 1 <= |r.data| <= CHUNK
  }

  function Stream(rs: seq<SocketRead>): seq<byte> {
    if rs == [] then [] else (if rs[0].Got? then rs[0].data else []) + Stream(rs[1..])
  }

  /** The reads before the first end of file or error: nothing follows either of them. */
  function Arrived(rs: seq<SocketRead>): (r: seq<SocketRead>)
    ensures r <= rs
    ensures Proper(rs) ==> AllData(r)
    ensures |r| < |rs| ==> rs[|r|].IoError? || rs[|r|].data == []
    decreases |rs|
  {
    if rs == [] || rs[0].IoError? || rs[0].data == [] then []
    else
      var more := Arrived(rs[1..]);
      assert [rs[0]] + more <= [rs[0]] + rs[1..] == rs;
      [rs[0]] + more
  }

  /** Some read ended beyond the limit, and not yet at the end of the head. */
  predicate OverrunsBefore(held: nat, rs: seq<SocketRead>, e: nat)
    decreases |rs|
  {
    rs != [] && rs[0].Got? &&
    var held' := held + |rs[0].data|;
    held' < e && (held' > HEAD_LIMIT || OverrunsBefore(held', rs[1..], e))
  }

  /** What the scan makes of bytes that keep coming. The head is found iff its end has arrived and no read
      before that one ended beyond the limit; then head and surplus are the stream, cut at that end. */
  lemma {:induction false} ScanOfData(buf: seq<byte>, rs: seq<SocketRead>)
    requires AllData(rs) && HeadEnd(buf) == None && |buf| <= HEAD_LIMIT
    ensures var s := buf + Stream(rs);
            var r := Scan(buf, rs);
            match HeadEnd(s)
            case Some(e) =>
              if OverrunsBefore(|buf|, rs, e) then r == TooLarge
              else r.Found? && r.head == s[..e] && r.head + r.extra <= s
            case None =>
              if OverrunsBefore(|buf|, rs, |s| + 1) then r == TooLarge else r == Waiting(s)
    decreases |rs|
  {
    var s := buf + Stream(rs);
    if rs == [] {
      assert s == buf;
    } else {
      assert rs[0] in rs;
      var buf' := buf + rs[0].data;
      assert s == buf' + Stream(rs[1..]);
      HeadEndOfPrefix(s, buf');
      if HeadEnd(buf') == None && |buf'| <= HEAD_LIMIT {
        ScanOfData(buf', rs[1..]);
      }
    }
  }

  /** What becomes of a scan that has not decided when the reads in hand run out. */
  function AfterData(held: seq<byte>, rs: seq<SocketRead>, n: nat): ScanResult {
    if n >= |rs| then Waiting(held) else if rs[n].IoError? then Broken else Closed
  }

  lemma {:induction false} ScanStops(buf: seq<byte>, rs: seq<SocketRead>)
    ensures var d := Arrived(rs);
            Scan(buf, rs) == match Scan(buf, d) case Waiting(held) => AfterData(held, rs, |d|) case r => r
    decreases |rs|
  {
    if rs != [] && rs[0].Got? && rs[0].data != [] {
      assert Arrived(rs)[0] == rs[0] && Arrived(rs)[1..] == Arrived(rs[1..]);
      ScanStops(buf + rs[0].data, rs[1..]);
    }
  }

  /** The head found, and the surplus behind it: `r` cuts `s` at `e`. */
  predicate Cuts(r: ScanResult, s: seq<byte>, e: nat)
    requires e <= |s|
  {
    r.Found? && r.head == s[..e] && r.head + r.extra <= s
  }

  lemma ScanWithHead(rs: seq<SocketRead>)
    requires Proper(rs) && HeadEnd(Stream(Arrived(rs))).Some?
    ensures var s := Stream(Arrived(rs));
            var e := HeadEnd(s).value;
            if OverrunsBefore(0, Arrived(rs), e) then Scan([], rs) == TooLarge else Cuts(Scan([], rs), s, e)
  {
    var d := Arrived(rs);
    assert [] + Stream(d) == Stream(d);
    ScanOfData([], d);
    ScanStops([], rs);
  }

  lemma ScanWithoutHead(rs: seq<SocketRead>)
    requires Proper(rs) && HeadEnd(Stream(Arrived(rs))).None?
    ensures var d := Arrived(rs);
            var s := Stream(d);
            Scan([], rs) == if OverrunsBefore(0, d, |s| + 1) then TooLarge else AfterData(s, rs, |d|)
  {
    var d := Arrived(rs);
    assert [] + Stream(d) == Stream(d);
    ScanOfData([], d);
    ScanStops([], rs);
  }

  /** Exactly what the scan makes of any reads whatever. The head is found iff its end arrived before any end of file
      or error, and no read before that one ended beyond the limit; then head and surplus are the stream, cut at that
      end. Otherwise it is too large iff some read ended beyond the limit, and else the first end of file or error
      decides. */
  lemma ScanExact(rs: seq<SocketRead>)
    requires Proper(rs)
    ensures var d := Arrived(rs);
            var s := Stream(d);
            match HeadEnd(s)
            case Some(e) =>
              if OverrunsBefore(0, d, e) then Scan([], rs) == TooLarge else Cuts(Scan([], rs), s, e)
            case None =>
              Scan([], rs) == if OverrunsBefore(0, d, |s| + 1) then TooLarge else AfterData(s, rs, |d|)
  {
    if HeadEnd(Stream(Arrived(rs))).Some? {
      ScanWithHead(rs);
    } else {
      ScanWithoutHead(rs);
    }
  }

  lemma {:induction false} OverrunNeedsRoom(held: nat, rs: seq<SocketRead>, e: nat)
    requires AllData(rs)
    ensures e <= HEAD_LIMIT + 1 ==> !OverrunsBefore(held, rs, e)
    ensures held <= HEAD_LIMIT && HEAD_LIMIT + CHUNK < e <= held + |Stream(rs)| ==> OverrunsBefore(held, rs, e)
    decreases |rs|
  {
    if rs != [] {
      assert rs[0] in rs;
      OverrunNeedsRoom(held + |rs[0].data|, rs[1..], e);
    }
  }

  /** Chunk-independent bounds: once delivered, a head that ends at or before byte 16385 is found under every chunking,
      and one that ends after byte 16896 under none. */
  lemma ScanBounds(rs: seq<SocketRead>)
    requires Proper(rs) && HeadEnd(Stream(Arrived(rs))).Some?
    ensures var e := HeadEnd(Stream(Arrived(rs))).value;
            && (e <= 16385 ==> Scan([], rs).Found?)
            && (e > 16896 ==> Scan([], rs) == TooLarge)
  {
    ScanExact(rs);
    OverrunNeedsRoom(0, Arrived(rs), HeadEnd(Stream(Arrived(rs))).value);
  }

  lemma {:induction false} AllDataAppend(a: seq<SocketRead>, b: seq<SocketRead>)
    requires AllData(a) && AllData(b)
    ensures AllData(a + b)
  {
  }

  lemma CutStream(s: seq<byte>, tail: seq<SocketRead>)
    requires |s| > HEAD_LIMIT && AllData(tail) && Stream(tail) == s[HEAD_LIMIT..]
    ensures var rs := Blocks(s[..HEAD_LIMIT]) + tail;
            AllData(rs) && Stream(rs) == s && [] + Stream(rs) == s
  {
    var blocks := Blocks(s[..HEAD_LIMIT]);
    StreamAppend(blocks, tail);
    AllDataAppend(blocks, tail);
    assert s == s[..HEAD_LIMIT] + s[HEAD_LIMIT..];
  }

  lemma ScanToHead(rs: seq<SocketRead>)
    requires AllData(rs) && HeadEnd(Stream(rs)).Some?
    ensures var e := HeadEnd(Stream(rs)).value;
            if OverrunsBefore(0, rs, e) then Scan([], rs) == TooLarge else Scan([], rs).Found?
  {
    assert [] + Stream(rs) == Stream(rs);
    ScanOfData([], rs);
  }

  /** `s` up to the limit in whole chunks, then what is left in the given cuts. */
  lemma CutAtLimit(s: seq<byte>, tail: seq<SocketRead>)
    requires |s| > HEAD_LIMIT && AllData(tail) && Stream(tail) == s[HEAD_LIMIT..]
    requires HeadEnd(s) == Some(|s|)
    ensures var rs := Blocks(s[..HEAD_LIMIT]) + tail;
            && AllData(rs) && Stream(rs) == s
            && (if OverrunsBefore(HEAD_LIMIT, tail, |s|) then Scan([], rs) == TooLarge else Scan([], rs).Found?)
  {
    var blocks := Blocks(s[..HEAD_LIMIT]);
    CutStream(s, tail);
    BlocksOverrun(0, blocks, tail, |s|);
    ScanToHead(blocks + tail);
  }

  /** Between those two bounds the chunking decides: the same head is found or refused. */
  lemma ChunkingDecidesBetween(s: seq<byte>) returns (late: seq<SocketRead>, early: seq<SocketRead>)
    requires 16385 < |s| <= 16896 && HeadEnd(s) == Some(|s|)
    ensures AllData(late) && Stream(late) == s && Scan([], late).Found?
    ensures AllData(early) && Stream(early) == s && Scan([], early) == TooLarge
  {
    var last := s[HEAD_LIMIT..];
    var one, two := [Got(last)], [Got(last[..1]), Got(last[1..])];
    assert Stream(one) == last + Stream([]);
    assert two[1..] == [Got(last[1..])] && Stream([Got(last[1..])]) == last[1..] + Stream([]);
    assert last == last[..1] + last[1..];
    CutAtLimit(s, one);
    CutAtLimit(s, two);
    late, early := Blocks(s[..HEAD_LIMIT]) + one, Blocks(s[..HEAD_LIMIT]) + two;
    assert !OverrunsBefore(HEAD_LIMIT, one, |s|) && OverrunsBefore(HEAD_LIMIT, two, |s|);
  }

  /** `body` in full chunks, and what is left in one more. */
  function Blocks(body: seq<byte>): (r: seq<SocketRead>)
    ensures AllData(r) && Stream(r) == body
    decreases |body|
  {
    if body == [] then []
    else if |body| <= CHUNK then
      assert Stream([Got(body)]) == body + Stream([]);
      [Got(body)]
    else
      var rest := Blocks(body[CHUNK..]);
      assert ([Got(body[..CHUNK])] + rest)[1..] == rest;
      [Got(body[..CHUNK])] + rest
  }

  lemma {:induction false} StreamAppend(a: seq<SocketRead>, b: seq<SocketRead>)
    ensures Stream(a + b) == Stream(a) + Stream(b)
  {
    if a == [] {
      assert a + b == b;
    } else {
      assert (a + b)[1..] == a[1..] + b;
      StreamAppend(a[1..], b);
    }
  }

  lemma OverrunRound(held: nat, first: SocketRead, more: seq<SocketRead>, e: nat)
    requires first.Got? && held + |first.data| <= HEAD_LIMIT < e
    ensures OverrunsBefore(held, [first] + more, e) == OverrunsBefore(held + |first.data|, more, e)
  {
    assert ([first] + more)[1..] == more;
  }

  /** Chunks that end at the limit or before never overrun it. */
  lemma {:induction false} BlocksOverrun(held: nat, blocks: seq<SocketRead>, tail: seq<SocketRead>, e: nat)
    requires AllData(blocks) && held + |Stream(blocks)| <= HEAD_LIMIT < e
    ensures OverrunsBefore(held, blocks + tail, e) == OverrunsBefore(held + |Stream(blocks)|, tail, e)
    decreases |blocks|
  {
    if blocks == [] {
      assert blocks + tail == tail;
    } else {
      OverrunRound(held, blocks[0], blocks[1..] + tail, e);
      assert blocks[0] in blocks && blocks + tail == [blocks[0]] + (blocks[1..] + tail);
      assert |Stream(blocks)| == |blocks[0].data| + |Stream(blocks[1..])|;
      BlocksOverrun(held + |blocks[0].data|, blocks[1..], tail, e);
    }
  }

  /** The scan never waits for more than 16385 reads that bring bytes. */
  lemma {:induction false} ScanEnds(buf: seq<byte>, rs: seq<SocketRead>)
    requires AllData(rs) && |buf| <= 16384 && |buf| + |rs| >= 16385
    ensures !Scan(buf, rs).Waiting?
    decreases |rs|
  {
    assert rs[0] in rs;
    var buf' := buf + rs[0].data;
    if |buf'| <= HEAD_LIMIT {
      ScanEnds(buf', rs[1..]);
    }
  }

  /** The scan as the program writes it, with what it keeps in memory: never more than 16896 bytes. */
  method ScanHead(rs: seq<SocketRead>) returns (r: ScanResult, peak: nat)
    requires Proper(rs)
    ensures r == Scan([], rs)
    ensures peak <= 16896
    ensures r.Found? ==> |r.head| + |r.extra| <= peak
  {
    var buf: seq<byte> := [];
    peak := 0;
    for i := 0 to |rs|
      invariant |buf| <= HEAD_LIMIT && peak <= HEAD_LIMIT + CHUNK
      invariant Scan([], rs) == Scan(buf, rs[i..])
    {
      assert rs[i] in rs && rs[i..][1..] == rs[i + 1..];
      if rs[i].IoError? {
        return Broken, peak;
      }
      if rs[i].data == [] {
        return Closed, peak;
      }
      buf := buf + rs[i].data;
      peak := if |buf| > peak then |buf| else peak;
      var end := HeadEnd(buf);
      HeadEndFinds(buf);
      if end.Some? {
        return Found(buf[..end.value], buf[end.value..]), peak;
      }
      if |buf| > HEAD_LIMIT {
        return TooLarge, peak;
      }
    }
    r := Waiting(buf);
  }

  // ---- The stream after the handshake ----------------------------------------------------

  /** `prefix` was read past the head; `rest` is what the socket has still to deliver. */
  datatype Prefixed = Prefixed(prefix: seq<byte>, pos: nat, rest: seq<byte>) {
    /** What a reader has still to receive. */
    function Remaining(): seq<byte>
      requires pos <= |prefix|
    {
      prefix[pos..] + rest
    }
  }

  function Min(a: nat, b: nat): nat {
    if a < b then a else b
  }

  /** One read with room for `cap` bytes; the socket itself may yield fewer than are asked for. */
  datatype ReadCall = ReadCall(cap: nat, socketYields: nat)

  function PollRead(p: Prefixed, c: ReadCall): (Prefixed, seq<byte>)
    requires p.pos <= |p.prefix|
  {
    if p.pos < |p.prefix| then
      var n := Min(|p.prefix| - p.pos, c.cap);
      (p.(pos := p.pos + n), p.prefix[p.pos..p.pos + n])
    else
      var n := Min(Min(c.cap, c.socketYields), |p.rest|);
      (p.(rest := p.rest[n..]), p.rest[..n])
  }

  function ReadAll(p: Prefixed, calls: seq<ReadCall>): (Prefixed, seq<byte>)
    requires p.pos <= |p.prefix|
    decreases |calls|
  {
    if calls == [] then (p, [])
    else
      var (p', out) := PollRead(p, calls[0]);
      var (p'', more) := ReadAll(p', calls[1..]);
      (p'', out + more)
  }

  lemma PollReadSplits(p: Prefixed, c: ReadCall)
    requires p.pos <= |p.prefix|
    ensures var (p', out) := PollRead(p, c);
            p'.pos <= |p'.prefix| && |out| <= c.cap && out + p'.Remaining() == p.Remaining()
  {
  }

  /** How much a read hands over: of the surplus as much as there is room for; without surplus, what the socket
      yields. */
  lemma PollReadLength(p: Prefixed, c: ReadCall)
    requires p.pos <= |p.prefix|
    ensures var surplus := |p.prefix| - p.pos;
            var n := |PollRead(p, c).1|;
            if surplus > 0 then
              n == if surplus <= c.cap then surplus else c.cap
            else
              && n <= c.cap && n <= c.socketYields && n <= |p.rest|
              && (n == c.cap || n == c.socketYields || n == |p.rest|)
  {
  }

  /** Reads with room, from a socket that yields something, leave nothing behind: as many of them as there are bytes
      deliver every byte. */
  lemma {:induction false} ReadsDeliverAll(p: Prefixed, calls: seq<ReadCall>)
    requires p.pos <= |p.prefix| && |calls| >= |p.Remaining()|
    requires forall c | c in calls :: c.cap >= 1 && c.socketYields >= 1
    ensures ReadAll(p, calls).1 == p.Remaining()
    decreases |calls|
  {
    if calls != [] {
      assert calls[0] in calls;
      PollReadSplits(p, calls[0]);
      PollReadLength(p, calls[0]);
      ReadsDeliverAll(PollRead(p, calls[0]).0, calls[1..]);
    }
  }

  lemma {:induction false} ReadAllSplits(p: Prefixed, calls: seq<ReadCall>)
    requires p.pos <= |p.prefix|
    ensures var (p', out) := ReadAll(p, calls); p'.pos <= |p'.prefix| && out + p'.Remaining() == p.Remaining()
    decreases |calls|
  {
    if calls == [] {
      assert [] + p.Remaining() == p.Remaining();
    } else {
      PollReadSplits(p, calls[0]);
      var (p', out) := PollRead(p, calls[0]);
      ReadAllSplits(p', calls[1..]);
      var (p'', more) := ReadAll(p', calls[1..]);
      assert out + more + p''.Remaining() == out + (more + p''.Remaining());
    }
  }

  datatype Connected = Established(stream: Prefixed) | Refused | Failed

  /** The handshake: scan for the head, let `accepts` judge it, and keep the surplus in front of the socket. */
  function Connect(rs: seq<SocketRead>, accepts: seq<byte> -> bool): Connected {
    match Scan([], rs)
    case Found(head, extra) =>
      if accepts(head) then
        var taken := |head| + |extra|;
        var all := Stream(Arrived(rs));
        Established(Prefixed(extra, 0, if taken <= |all| then all[taken..] else []))
      else Refused
    case _ => Failed
  }

  /** When the handshake succeeds, over every outcome of every read: the head arrived before any end of file or
      error, no earlier read overran the limit, and the head is accepted. */
  lemma ConnectExact(rs: seq<SocketRead>, accepts: seq<byte> -> bool)
    requires Proper(rs)
    ensures var s := Stream(Arrived(rs));
            Connect(rs, accepts).Established? <==>
              match HeadEnd(s)
              case Some(e) => !OverrunsBefore(0, Arrived(rs), e) && accepts(s[..e])
              case None => false
    ensures Connect(rs, accepts).Refused? <==>
            match HeadEnd(Stream(Arrived(rs)))
            case Some(e) => !OverrunsBefore(0, Arrived(rs), e) && !accepts(Stream(Arrived(rs))[..e])
            case None => false
  {
    if HeadEnd(Stream(Arrived(rs))).Some? {
      ScanWithHead(rs);
    } else {
      ScanWithoutHead(rs);
    }
  }

  lemma Surplus(s: seq<byte>, head: seq<byte>, extra: seq<byte>)
    requires head + extra <= s
    ensures extra + s[|head| + |extra|..] == s[|head|..]
  {
    var n := |head| + |extra|;
    assert s[..n] == head + extra;
    assert s[|head|..n] == s[..n][|head|..] == extra;
    assert s[|head|..] == s[|head|..n] + s[n..];
  }

  lemma FoundCutsTheStream(rs: seq<SocketRead>)
    requires Proper(rs) && Scan([], rs).Found?
    ensures var s := Stream(Arrived(rs));
            HeadEnd(s).Some? && Cuts(Scan([], rs), s, HeadEnd(s).value)
  {
    if HeadEnd(Stream(Arrived(rs))).Some? {
      ScanWithHead(rs);
    } else {
      ScanWithoutHead(rs);
    }
  }

  /** The stream handed over after a head that was found. */
  lemma SurplusFirst(s: seq<byte>, head: seq<byte>, extra: seq<byte>)
    requires head + extra <= s
    ensures Prefixed(extra, 0, s[|head| + |extra|..]).Remaining() == s[|head|..]
  {
    Surplus(s, head, extra);
    assert extra[0..] == extra;
  }

  lemma EstablishedFound(rs: seq<SocketRead>, accepts: seq<byte> -> bool)
    requires Connect(rs, accepts).Established?
    ensures Scan([], rs).Found? && accepts(Scan([], rs).head)
    ensures var r, all := Scan([], rs), Stream(Arrived(rs));
            |r.head| + |r.extra| <= |all| ==>
              Connect(rs, accepts).stream == Prefixed(r.extra, 0, all[|r.head| + |r.extra|..])
  {
  }

  /** What an established tunnel still has to deliver is exactly what follows the head. */
  lemma TunnelStartsAfterHead(rs: seq<SocketRead>, accepts: seq<byte> -> bool)
    requires Proper(rs) && Connect(rs, accepts).Established?
    ensures var s := Stream(Arrived(rs));
            var p := Connect(rs, accepts).stream;
            && HeadEnd(s).Some? && accepts(s[..HeadEnd(s).value])
            && p.pos == 0 && p.Remaining() == s[HeadEnd(s).value..]
  {
    EstablishedFound(rs, accepts);
    FoundCutsTheStream(rs);
    var s, r := Stream(Arrived(rs)), Scan([], rs);
    assert |r.head| + |r.extra| == |r.head + r.extra| <= |s|;
    SurplusFirst(s, r.head, r.extra);
  }

  lemma PrefixOfWhole(out: seq<byte>, left: seq<byte>, whole: seq<byte>)
    requires out + left == whole
    ensures out <= whole && (left == [] ==> out == whole)
  {
  }

  /** Reads of an established tunnel yield exactly the bytes after the first CRLFCRLF, none lost or repeated where the
      surplus meets the socket; and once everything was read, all of them. */
  lemma TunnelFidelity(rs: seq<SocketRead>, accepts: seq<byte> -> bool, calls: seq<ReadCall>)
    requires Proper(rs) && Connect(rs, accepts).Established?
    ensures HeadEnd(Stream(Arrived(rs))).Some?
    ensures var after := Stream(Arrived(rs))[HeadEnd(Stream(Arrived(rs))).value..];
            var (p, out) := ReadAll(Connect(rs, accepts).stream, calls);
            out <= after && (p.pos == |p.prefix| && p.rest == [] ==> out == after)
  {
    TunnelStartsAfterHead(rs, accepts);
    var p0 := Connect(rs, accepts).stream;
    ReadAllSplits(p0, calls);
    var (p, out) := ReadAll(p0, calls);
    PrefixOfWhole(out, p.Remaining(), p0.Remaining());
  }

  /** An established tunnel delivers everything: enough reads yield exactly the bytes after the first CRLFCRLF. */
  lemma TunnelDelivers(rs: seq<SocketRead>, accepts: seq<byte> -> bool, calls: seq<ReadCall>)
    requires Proper(rs) && Connect(rs, accepts).Established?
    requires |calls| >= |Connect(rs, accepts).stream.Remaining()|
    requires forall c | c in calls :: c.cap >= 1 && c.socketYields >= 1
    ensures HeadEnd(Stream(Arrived(rs))).Some?
    ensures ReadAll(Connect(rs, accepts).stream, calls).1 ==
            Stream(Arrived(rs))[HeadEnd(Stream(Arrived(rs))).value..]
  {
    TunnelStartsAfterHead(rs, accepts);
    ReadsDeliverAll(Connect(rs, accepts).stream, calls);
  }

  class PrefixedStream {
    const prefix: seq<byte>
    var prefixPos: nat
    var socket: seq<byte>

    function View(): Prefixed
      reads this
    {
      Prefixed(prefix, prefixPos, socket)
    }

    constructor (prefix: seq<byte>, socket: seq<byte>)
      ensures View() == Prefixed(prefix, 0, socket)
    {
      this.prefix, prefixPos, this.socket := prefix, 0, socket;
    }

    method Read(cap: nat, socketYields: nat) returns (out: seq<byte>)
      requires prefixPos <= |prefix|
      modifies this
      ensures (View(), out) == PollRead(old(View()), ReadCall(cap, socketYields))
      ensures prefixPos <= |prefix|
      ensures out + View().Remaining() == old(View().Remaining())
      ensures old(prefixPos) < |prefix| ==>
                |out| == if |prefix| - old(prefixPos) <= cap then |prefix| - old(prefixPos) else cap
      ensures old(prefixPos) == |prefix| ==>
                (out == [] <==> cap == 0 || socketYields == 0 || old(socket) == [])
    {
      PollReadSplits(View(), ReadCall(cap, socketYields));
      if prefixPos < |prefix| {
        var remaining := prefix[prefixPos..];
        var n := Min(|remaining|, cap);
        out := remaining[..n];
        assert out == prefix[prefixPos..prefixPos + n];
        prefixPos := prefixPos + n;
        return;
      }
      var n := Min(Min(cap, socketYields), |socket|);
      out := socket[..n];
      socket := socket[n..];
    }
  }
}
