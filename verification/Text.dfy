/** Text that crosses the C boundary: read up to a NUL, and taken only if it is UTF-8 (section 4 of RFC 3629). */
module Text {
  import opened Bytes
  import opened Channels

  /** What a string read through a pointer holds: the bytes in memory up to the first NUL. */
  function TextAt(memory: seq<byte>): seq<byte> {
    if memory == [] || memory[0] == 0 then [] else [memory[0]] + TextAt(memory[1..])
  }

  /** The text is what was put there, whole and with nothing added, exactly when no NUL comes before its end and what
      follows it in memory does not continue it. */
  lemma {:induction false} TextIsWholeIff(text: seq<byte>, beyond: seq<byte>)
    ensures TextAt(text + beyond) == text <==> 0 !in text && TextAt(beyond) == []
  {
    if text == [] {
      assert text + beyond == beyond;
    } else {
      assert (text + beyond)[1..] == text[1..] + beyond;
      TextIsWholeIff(text[1..], beyond);
      assert text == [text[0]] + text[1..];
      assert TextAt(text + beyond) == text && text[0] != 0 ==> TextAt(text + beyond)[1..] == text[1..];
    }
  }

  // ---- UTF-8 -----------------------------------------------------------------------------

  predicate Tail(b: byte) {
    0x80 <= b <= 0xBF
  }

  /** The first two bytes of a three-byte character: no overlong forms and no surrogates. */
  predicate Opens3(a: byte, b: byte) {
    || (a == 0xE0 && 0xA0 <= b <= 0xBF)
    || (0xE1 <= a <= 0xEF && a != 0xED && Tail(b))
    || (a == 0xED && 0x80 <= b <= 0x9F)
  }

  /** The first two bytes of a four-byte character: no overlong forms and nothing above U+10FFFF. */
  predicate Opens4(a: byte, b: byte) {
    || (a == 0xF0 && 0x90 <= b <= 0xBF)
    || (0xF1 <= a <= 0xF3 && Tail(b))
    || (a == 0xF4 && 0x80 <= b <= 0x8F)
  }

  /** The length of the character that `s` begins with, or 0 if it begins with none. */
  function CharLength(s: seq<byte>): (n: nat)
    ensures n <= |s|
  {
    if s == [] then 0
    else if s[0] <= 0x7F then 1
    else if |s| >= 2 && 0xC2 <= s[0] <= 0xDF && Tail(s[1]) then 2
    else if |s| >= 3 && Opens3(s[0], s[1]) && Tail(s[2]) then 3
    else if |s| >= 4 && Opens4(s[0], s[1]) && Tail(s[2]) && Tail(s[3]) then 4
    else 0
  }

  predicate ValidUtf8(s: seq<byte>)
    decreases |s|
  {
    s == [] || (CharLength(s) > 0 && ValidUtf8(s[CharLength(s)..]))
  }

  /** A Unicode scalar value: any code point but a surrogate. */
  predicate Scalar(c: nat) {
    c <= 0x10FFFF && !(0xD800 <= c <= 0xDFFF)
  }

  function EncodeScalar(c: nat): seq<byte>
    requires Scalar(c)
  {
    if c < 0x80 then [c as byte]
    else if c < 0x800 then [(0xC0 + c / 0x40) as byte, (0x80 + c % 0x40) as byte]
    else if c < 0x10000 then
      [(0xE0 + c / 0x1000) as byte, (0x80 + c / 0x40 % 0x40) as byte, (0x80 + c % 0x40) as byte]
    else
      [(0xF0 + c / 0x40000) as byte, (0x80 + c / 0x1000 % 0x40) as byte, (0x80 + c / 0x40 % 0x40) as byte,
       (0x80 + c % 0x40) as byte]
  }

  predicate AllScalar(cs: seq<nat>) {
    forall c | c in cs :: Scalar(c)
  }

  function EncodeText(cs: seq<nat>): seq<byte>
    requires AllScalar(cs)
  {
    if cs == [] then [] else EncodeScalar(cs[0]) + EncodeText(cs[1..])
  }

  lemma EncodedOpens3(c: nat)
    requires Scalar(c) && 0x800 <= c < 0x10000
    ensures var e := EncodeScalar(c); |e| == 3 && Opens3(e[0], e[1]) && Tail(e[2])
  {
  }

  lemma EncodedOpens4(c: nat)
    requires Scalar(c) && 0x10000 <= c
    ensures var e := EncodeScalar(c); |e| == 4 && Opens4(e[0], e[1]) && Tail(e[2]) && Tail(e[3])
  {
  }

  lemma EncodedOpens(c: nat)
    requires Scalar(c)
    ensures var e := EncodeScalar(c);
            || (|e| == 1 && e[0] <= 0x7F)
            || (|e| == 2 && 0xC2 <= e[0] <= 0xDF && Tail(e[1]))
            || (|e| == 3 && Opens3(e[0], e[1]) && Tail(e[2]))
            || (|e| == 4 && Opens4(e[0], e[1]) && Tail(e[2]) && Tail(e[3]))
  {
    if 0x800 <= c < 0x10000 {
      EncodedOpens3(c);
    } else if 0x10000 <= c {
      EncodedOpens4(c);
    }
  }

  lemma LengthOfEncoded(c: nat, rest: seq<byte>)
    requires Scalar(c)
    ensures CharLength(EncodeScalar(c) + rest) == |EncodeScalar(c)| > 0
  {
    EncodedOpens(c);
    var e := EncodeScalar(c);
    var s := e + rest;
    assert forall i | 0 <= i < |e| :: s[i] == e[i];
  }

  /** The character that `s` begins with. */
  function ScalarAt(s: seq<byte>): nat
    requires CharLength(s) > 0
  {
    match CharLength(s)
    case 1 => s[0] as nat
    case 2 => (s[0] as nat - 0xC0) * 0x40 + (s[1] as nat - 0x80)
    case 3 => ((s[0] as nat - 0xE0) * 0x40 + (s[1] as nat - 0x80)) * 0x40 + (s[2] as nat - 0x80)
    case _ =>
      (((s[0] as nat - 0xF0) * 0x40 + (s[1] as nat - 0x80)) * 0x40 + (s[2] as nat - 0x80)) * 0x40 + (s[3] as nat - 0x80)
  }

  lemma SixBits(high: nat, low: nat)
    requires low < 0x40
    ensures (high * 0x40 + low) / 0x40 == high && (high * 0x40 + low) % 0x40 == low
  {
  }

  lemma TwoDigits(c: nat)
    ensures c / 0x1000 == c / 0x40 / 0x40 && c / 0x40000 == c / 0x40 / 0x40 / 0x40
  {
  }

  lemma EncodedOfThree(s: seq<byte>)
    requires CharLength(s) == 3
    ensures Scalar(ScalarAt(s)) && EncodeScalar(ScalarAt(s)) == s[..3]
  {
    var a, b, c := s[0] as nat - 0xE0, s[1] as nat - 0x80, s[2] as nat - 0x80;
    SixBits(a * 0x40 + b, c);
    SixBits(a, b);
    TwoDigits(ScalarAt(s));
  }

  lemma EncodedOfFour(s: seq<byte>)
    requires CharLength(s) == 4
    ensures Scalar(ScalarAt(s)) && EncodeScalar(ScalarAt(s)) == s[..4]
  {
    var a, b, c, d := s[0] as nat - 0xF0, s[1] as nat - 0x80, s[2] as nat - 0x80, s[3] as nat - 0x80;
    SixBits((a * 0x40 + b) * 0x40 + c, d);
    SixBits(a * 0x40 + b, c);
    SixBits(a, b);
    TwoDigits(ScalarAt(s));
  }

  lemma EncodedOfLength(s: seq<byte>)
    requires CharLength(s) > 0
    ensures Scalar(ScalarAt(s)) && EncodeScalar(ScalarAt(s)) == s[..CharLength(s)]
  {
    match CharLength(s)
    case 1 =>
    case 2 => SixBits(s[0] as nat - 0xC0, s[1] as nat - 0x80);
    case 3 => EncodedOfThree(s);
    case _ => EncodedOfFour(s);
  }

  lemma {:induction false} EncodedIsValid(cs: seq<nat>)
    requires AllScalar(cs)
    ensures ValidUtf8(EncodeText(cs))
  {
    if cs != [] {
      var first, rest := EncodeScalar(cs[0]), EncodeText(cs[1..]);
      LengthOfEncoded(cs[0], rest);
      assert (first + rest)[|first|..] == rest;
      EncodedIsValid(cs[1..]);
    }
  }

  lemma EncodePrepends(c: nat, cs: seq<nat>)
    requires Scalar(c) && AllScalar(cs)
    ensures AllScalar([c] + cs) && EncodeText([c] + cs) == EncodeScalar(c) + EncodeText(cs)
  {
    assert ([c] + cs)[1..] == cs;
  }

  lemma ValidPrepends(s: seq<byte>, cs: seq<nat>)
    requires CharLength(s) > 0 && AllScalar(cs) && EncodeText(cs) == s[CharLength(s)..]
    ensures Scalar(ScalarAt(s)) && AllScalar([ScalarAt(s)] + cs) && EncodeText([ScalarAt(s)] + cs) == s
  {
    EncodedOfLength(s);
    EncodePrepends(ScalarAt(s), cs);
    assert s == s[..CharLength(s)] + s[CharLength(s)..];
  }

  lemma {:induction false} ValidIsEncoded(s: seq<byte>) returns (cs: seq<nat>)
    requires ValidUtf8(s)
    ensures AllScalar(cs) && EncodeText(cs) == s
    decreases |s|
  {
    if s == [] {
      cs := [];
    } else {
      var rest := ValidIsEncoded(s[CharLength(s)..]);
      ValidPrepends(s, rest);
      cs := [ScalarAt(s)] + rest;
    }
  }

  /** The validator accepts exactly the encodings of scalar values. */
  lemma ValidUtf8Exact(s: seq<byte>)
    ensures ValidUtf8(s) <==> exists cs :: AllScalar(cs) && EncodeText(cs) == s
  {
    if ValidUtf8(s) {
      var cs := ValidIsEncoded(s);
    }
    forall cs | AllScalar(cs) && EncodeText(cs) == s ensures ValidUtf8(s) {
      EncodedIsValid(cs);
    }
  }

  // ---- A status as the library receives it -----------------------------------------------

  /** The message of a completion is read up to a NUL, and refused if that is not UTF-8. */
  function Received(st: Status): Option<Status> {
    var text := TextAt(st.text);
    if ValidUtf8(text) then Some(st.(text := text)) else None
  }

  /** What precedes the first NUL. */
  ghost predicate UpToNul(memory: seq<byte>, text: seq<byte>) {
    text <= memory && 0 !in text && (text == memory || memory[|text|] == 0)
  }

  lemma {:induction false} TextAtExact(memory: seq<byte>, text: seq<byte>)
    ensures TextAt(memory) == text <==> UpToNul(memory, text)
    decreases |memory|
  {
    if memory != [] && memory[0] != 0 {
      var rest := memory[1..];
      assert memory == [memory[0]] + rest;
      if text != [] && text[0] == memory[0] {
        TextAtExact(rest, text[1..]);
        assert text == [text[0]] + text[1..];
        assert UpToNul(memory, text) <==> UpToNul(rest, text[1..]);
      }
    }
  }

  /** `st.text` holds, up to its first NUL, the UTF-8 encoding of some sequence of scalar values. */
  ghost predicate Readable(st: Status) {
    exists cs :: AllScalar(cs) && UpToNul(st.text, EncodeText(cs))
  }

  /** A message is refused exactly when no sequence of scalar values encodes what precedes its first NUL. */
  lemma RefusedIffUnreadable(st: Status)
    ensures Received(st).Some? <==> Readable(st)
    ensures Received(st).Some? ==> UpToNul(st.text, Received(st).value.text) && Received(st).value.code == st.code
  {
    var text := TextAt(st.text);
    ValidUtf8Exact(text);
    TextAtExact(st.text, text);
    forall cs | AllScalar(cs) && UpToNul(st.text, EncodeText(cs)) ensures EncodeText(cs) == text {
      TextAtExact(st.text, EncodeText(cs));
    }
  }

  /** Any text without a NUL is received whole, whatever comes behind a NUL after it. */
  lemma TextIsReceived(code: int, cs: seq<nat>, tail: seq<byte>)
    requires AllScalar(cs) && 0 !in EncodeText(cs) && (tail == [] || tail[0] == 0)
    ensures Received(Status(code, EncodeText(cs) + tail)) == Some(Status(code, EncodeText(cs)))
  {
    var text := EncodeText(cs);
    assert UpToNul(text + tail, text);
    TextAtExact(text + tail, text);
    EncodedIsValid(cs);
  }

  predicate Ascii(s: seq<byte>) {
    forall i | 0 <= i < |s| :: 1 <= s[i] <= 0x7F
  }

  /** Plain text is received as it was given. */
  lemma {:induction false} AsciiIsReceived(code: int, text: seq<byte>)
    requires Ascii(text)
    ensures Received(Status(code, text)) == Some(Status(code, text))
    decreases |text|
  {
    if text != [] {
      AsciiIsReceived(code, text[1..]);
      assert text == [text[0]] + text[1..];
      assert TextAt(text[1..]) == text[1..] && TextAt(text) == text && CharLength(text) == 1;
    }
  }
}
