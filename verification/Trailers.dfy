/** The `grpc-message` trailer: percent-encoding of an arbitrary status message. */
module Trailers {
  import opened Bytes
  import opened Channels

  const PERCENT: byte := 0x25

  predicate Plain(b: byte) {
    0x20 <= b <= 0x24 || 0x26 <= b <= 0x7E
  }

  function HexDigit(n: nat): byte
    requires n < 16
  {
    if n < 10 then (0x30 + n) as byte else (0x41 + n - 10) as byte
  }

  function EncodeByte(b: byte): seq<byte> {
    if Plain(b) then [b] else [PERCENT, HexDigit(b as nat / 16), HexDigit(b as nat % 16)]
  }

  function PercentEncode(s: seq<byte>): seq<byte> {
    if s == [] then [] else EncodeByte(s[0]) + PercentEncode(s[1..])
  }

  /** The value of a hexadecimal digit of either case. */
  function HexValue(b: byte): Option<nat> {
    if 0x30 <= b <= 0x39 then Some(b as nat - 0x30)
    else if 0x41 <= b <= 0x46 then Some(b as nat - 0x41 + 10)
    else if 0x61 <= b <= 0x66 then Some(b as nat - 0x61 + 10)
    else None
  }

  /** A percent-decoder in the sense of section 2.1 of RFC 3986; it fails on a malformed escape. */
  function PercentDecode(s: seq<byte>): Option<seq<byte>>
    decreases |s|
  {
    if s == [] then Some([])
    else if s[0] != PERCENT then
      match PercentDecode(s[1..])
      case None => None
      case Some(rest) => Some([s[0]] + rest)
    else if |s| < 3 || HexValue(s[1]) == None || HexValue(s[2]) == None then None
    else
      match PercentDecode(s[3..])
      case None => None
      case Some(rest) => Some([(HexValue(s[1]).value * 16 + HexValue(s[2]).value) as byte] + rest)
  }

  lemma HexRoundTrip(n: nat)
    requires n < 16
    ensures HexValue(HexDigit(n)) == Some(n) && Plain(HexDigit(n))
  {
  }

  lemma DecodeEncodedByte(b: byte, rest: seq<byte>)
    ensures PercentDecode(EncodeByte(b) + rest) == match PercentDecode(rest)
                                                   case None => None
                                                   case Some(r) => Some([b] + r)
  {
    HexRoundTrip(b as nat / 16);
    HexRoundTrip(b as nat % 16);
    var s := EncodeByte(b) + rest;
    if Plain(b) {
      assert s[1..] == rest;
    } else {
      assert s[3..] == rest;
      assert (b as nat / 16 * 16 + b as nat % 16) as byte == b;
    }
  }

  /** Decoding recovers the message, whatever its bytes. */
  lemma {:induction false} PercentRoundTrip(s: seq<byte>)
    ensures PercentDecode(PercentEncode(s)) == Some(s)
  {
    if s != [] {
      PercentRoundTrip(s[1..]);
      DecodeEncodedByte(s[0], PercentEncode(s[1..]));
      assert [s[0]] + s[1..] == s;
    }
  }

  /** Two different messages never share an encoding. */
  lemma PercentEncodeInjective(a: seq<byte>, b: seq<byte>)
    ensures PercentEncode(a) == PercentEncode(b) <==> a == b
  {
    PercentRoundTrip(a);
    PercentRoundTrip(b);
  }

  predicate HeaderSafe(s: seq<byte>) {
    forall b | b in s :: 0x20 <= b <= 0x7E
  }

  function Escapes(s: seq<byte>): nat {
    if s == [] then 0 else (if Plain(s[0]) then 0 else 1) + Escapes(s[1..])
  }

  lemma {:induction false} EscapesBounded(s: seq<byte>)
    ensures Escapes(s) <= |s| && (Escapes(s) == 0 <==> forall b | b in s :: Plain(b))
  {
    if s != [] {
      EscapesBounded(s[1..]);
      assert forall b :: b in s <==> b == s[0] || b in s[1..];
    }
  }

  /** The output is printable ASCII, two bytes longer for each byte that needed escaping. */
  lemma {:induction false} PercentEncodeShape(s: seq<byte>)
    ensures HeaderSafe(PercentEncode(s))
    ensures |PercentEncode(s)| == |s| + 2 * Escapes(s)
    ensures |s| <= |PercentEncode(s)| <= 3 * |s|
  {
    EscapesBounded(s);
    if s != [] {
      PercentEncodeShape(s[1..]);
      HexRoundTrip(s[0] as nat / 16);
      HexRoundTrip(s[0] as nat % 16);
      assert HeaderSafe(EncodeByte(s[0]));
    }
  }

  /** The form of an escape: a percent sign and two digits, letters in upper case. */
  lemma EscapeForm(b: byte)
    ensures var e := EncodeByte(b);
            if 0x20 <= b <= 0x7E && b != 0x25 then e == [b]
            else
              && |e| == 3 && e[0] == 0x25
              && forall i | 1 <= i < 3 :: (0x30 <= e[i] <= 0x39 || 0x41 <= e[i] <= 0x46)
  {
  }

  /** Exactly the messages of printable ASCII without a percent sign travel as they are. */
  lemma {:induction false} PlainIffKept(s: seq<byte>)
    ensures PercentEncode(s) == s <==> forall i | 0 <= i < |s| :: 0x20 <= s[i] <= 0x7E && s[i] != 0x25
  {
    PercentEncodeShape(s);
    EscapesBounded(s);
    if Escapes(s) == 0 {
      KeptWhenPlain(s);
      assert forall i | 0 <= i < |s| :: s[i] in s;
    } else {
      assert exists b :: b in s && !Plain(b);
    }
  }

  lemma {:induction false} KeptWhenPlain(s: seq<byte>)
    requires Escapes(s) == 0
    ensures PercentEncode(s) == s
  {
    if s != [] {
      KeptWhenPlain(s[1..]);
      assert s == [s[0]] + s[1..];
    }
  }

  lemma {:induction false} EncodeSnoc(s: seq<byte>, b: byte)
    ensures PercentEncode(s + [b]) == PercentEncode(s) + EncodeByte(b)
  {
    if s == [] {
      assert [] + [b] == [b] && [b][1..] == [];
    } else {
      assert (s + [b])[1..] == s[1..] + [b];
      EncodeSnoc(s[1..], b);
    }
  }

  method PercentEncodeMessage(s: seq<byte>) returns (out: seq<byte>)
    ensures out == PercentEncode(s)
    ensures HeaderSafe(out) && PercentDecode(out) == Some(s)
  {
    out := [];
    for i := 0 to |s|
      invariant out == PercentEncode(s[..i])
    {
      assert s[..i + 1] == s[..i] + [s[i]];
      EncodeSnoc(s[..i], s[i]);
      if 0x20 <= s[i] <= 0x24 || 0x26 <= s[i] <= 0x7E {
        out := out + [s[i]];
      } else {
        out := out + [PERCENT, HexDigit(s[i] as nat / 16), HexDigit(s[i] as nat % 16)];
      }
    }
    assert s[..|s|] == s;
    PercentRoundTrip(s);
    PercentEncodeShape(s);
  }

  /** The bytes a header value may hold: tab, and everything from space up except DEL (opaque high bytes included). */
  predicate HeaderValueOk(s: seq<byte>) {
    forall b | b in s :: b == 9 || (0x20 <= b && b != 0x7F)
  }

  datatype TrailerMap = TrailerMap(grpcStatus: int, grpcMessage: Option<seq<byte>>)

  function TrailersOf(st: Status): TrailerMap {
    var encoded := PercentEncode(st.text);
    TrailerMap(st.code, if st.text != [] && HeaderValueOk(encoded) then Some(encoded) else None)
  }

  /** A non-empty message is never dropped, and the client recovers exactly the status that was sent. */
  lemma TrailersCarryStatus(st: Status)
    ensures var t := TrailersOf(st);
            && t.grpcStatus == st.code
            && (t.grpcMessage.Some? <==> st.text != [])
            && (t.grpcMessage.Some? ==> PercentDecode(t.grpcMessage.value) == Some(st.text))
  {
    PercentEncodeShape(st.text);
    PercentRoundTrip(st.text);
    assert HeaderSafe(PercentEncode(st.text)) ==> HeaderValueOk(PercentEncode(st.text));
  }

  /** Hence two answers give the same trailers only if they are the same answer. */
  lemma TrailersInjective(a: Status, b: Status)
    ensures TrailersOf(a) == TrailersOf(b) <==> a == b
  {
    TrailersCarryStatus(a);
    TrailersCarryStatus(b);
  }
}
