/** `encodeURIComponent`: percent-encoding in the sense of section 2.1 of
    RFC 3986, applied to the UTF-8 bytes (RFC 3629) of every character
    outside the set the function leaves alone, with upper-case hexadecimal
    digits. `Decode` is `decodeURIComponent`, the inverse the links are read
    back with; the round trip shows the encoding loses nothing. */
module UriComponent {
  import opened Wrappers

  newtype byte = x: int | 0 <= x < 256

  /** The characters `encodeURIComponent` copies unchanged: ALPHA, DIGIT and `- _ . ! ~ * ' ( )`. */
  predicate IsUnescaped(c: char) {
    ('A' <= c <= 'Z') || ('a' <= c <= 'z') || ('0' <= c <= '9')
    || c == '-' || c == '_' || c == '.' || c == '!' || c == '~' || c == '*' || c == '\'' || c == '(' || c == ')'
  }

  /** UTF-8 encoding of one Unicode scalar value. */
  function Utf8(c: char): (bs: seq<byte>)
    ensures 1 <= |bs| <= 4
  {
    var n := c as int;
    if n < 0x80 then [n as byte]
    else if n < 0x800 then [(0xC0 + n / 64) as byte, (0x80 + n % 64) as byte]
    else if n < 0x1_0000 then
      [(0xE0 + n / 64 / 64) as byte, (0x80 + n / 64 % 64) as byte, (0x80 + n % 64) as byte]
    else
      [(0xF0 + n / 64 / 64 / 64) as byte, (0x80 + n / 64 / 64 % 64) as byte,
       (0x80 + n / 64 % 64) as byte, (0x80 + n % 64) as byte]
  }

  function HexDigit(d: int): (c: char)
    requires 0 <= d < 16
    ensures IsUnescaped(c)
  {
    if d < 10 then ('0' as int + d) as char else ('A' as int + d - 10) as char
  }

  function HexValue(c: char): Option<int> {
    if '0' <= c <= '9' then Some(c as int - '0' as int)
    else if 'A' <= c <= 'F' then Some(c as int - 'A' as int + 10)
    else if 'a' <= c <= 'f' then Some(c as int - 'a' as int + 10)
    else None
  }

  /** `%` followed by the two upper-case hexadecimal digits of `b`. */
  function PercentByte(b: byte): string {
    ['%', HexDigit(b as int / 16), HexDigit(b as int % 16)]
  }

  function PercentBytes(bs: seq<byte>): (r: string)
    ensures |r| == 3 * |bs|
    ensures forall i :: 0 <= i < |r| ==> IsUnescaped(r[i]) || r[i] == '%'
  {
    if bs == [] then [] else PercentByte(bs[0]) + PercentBytes(bs[1..])
  }

  function EncodeChar(c: char): (r: string)
    ensures forall i :: 0 <= i < |r| ==> IsUnescaped(r[i]) || r[i] == '%'
  {
    if IsUnescaped(c) then [c] else PercentBytes(Utf8(c))
  }

  /** `encodeURIComponent(s)`. Dafny strings hold scalar values only, so the
      `URIError` the source raises for a lone surrogate cannot arise. */
  function Encode(s: string): (r: string)
    ensures forall i :: 0 <= i < |r| ==> IsUnescaped(r[i]) || r[i] == '%'
  {
    if s == [] then [] else EncodeChar(s[0]) + Encode(s[1..])
  }

  // ---------------------------------------------------------------------------
  // Decoding

  /** Number of bytes a UTF-8 sequence starting with `b` has; 0 when `b` cannot start one. */
  function SequenceLength(b: byte): nat {
    if b < 0x80 then 1
    else if 0xC0 <= b < 0xE0 then 2
    else if 0xE0 <= b < 0xF0 then 3
    else if 0xF0 <= b < 0xF8 then 4
    else 0
  }

  predicate IsContinuation(b: byte) { 0x80 <= b < 0xC0 }

  /** The smallest scalar value a sequence of `k` bytes may carry (shorter forms are overlong). */
  function MinScalar(k: nat): int {
    if k <= 1 then 0 else if k == 2 then 0x80 else if k == 3 then 0x800 else 0x1_0000
  }

  function Utf8Value(bs: seq<byte>): int
    requires 1 <= |bs| <= 4
  {
    if |bs| == 1 then bs[0] as int
    else if |bs| == 2 then (bs[0] as int - 0xC0) * 64 + (bs[1] as int - 0x80)
    else if |bs| == 3 then
      (bs[0] as int - 0xE0) * 4096 + (bs[1] as int - 0x80) * 64 + (bs[2] as int - 0x80)
    else
      (bs[0] as int - 0xF0) * 0x4_0000 + (bs[1] as int - 0x80) * 4096
      + (bs[2] as int - 0x80) * 64 + (bs[3] as int - 0x80)
  }

  /** The character a well-formed UTF-8 sequence encodes. */
  function Utf8Decode(bs: seq<byte>): Option<char> {
    if |bs| == 0 || SequenceLength(bs[0]) != |bs| then None
    else if exists i :: 1 <= i < |bs| && !IsContinuation(bs[i]) then None
    else
      var n := Utf8Value(bs);
      if n < MinScalar(|bs|) || (0xD800 <= n < 0xE000) || n >= 0x11_0000 then None
      else Some(n as char)
  }

  /** The byte written as `%XY` at the start of `s`. */
  function ByteAt(s: string): Option<byte> {
    if |s| < 3 || s[0] != '%' then None
    else match (HexValue(s[1]), HexValue(s[2]))
      case (Some(h), Some(l)) => Some((h * 16 + l) as byte)
      case _ => None
  }

  function ReadBytes(s: string, k: nat): Option<seq<byte>>
    requires |s| >= 3 * k
  {
    if k == 0 then Some([])
    else match ByteAt(s)
      case None => None
      case Some(b) =>
        match ReadBytes(s[3..], k - 1)
        case None => None
        case Some(bs) => Some([b] + bs)
  }

  function Prepend(c: char, r: Option<string>): Option<string> {
    match r
    case None => None
    case Some(t) => Some([c] + t)
  }

  /** `decodeURIComponent(s)`; `None` stands for the `URIError` it throws. */
  function Decode(s: string): Option<string>
    decreases |s|
  {
    if s == [] then Some([])
    else if s[0] != '%' then Prepend(s[0], Decode(s[1..]))
    else
      match ByteAt(s)
      case None => None
      case Some(lead) =>
        var k := SequenceLength(lead);
        if k == 0 || |s| < 3 * k then None
        else
          match ReadBytes(s, k)
          case None => None
          case Some(bs) =>
            match Utf8Decode(bs)
            case None => None
            case Some(c) => Prepend(c, Decode(s[3 * k..]))
  }

  // ---------------------------------------------------------------------------
  // Lemmas

  lemma {:induction false} EncodeAppend(a: string, b: string)
    ensures Encode(a + b) == Encode(a) + Encode(b)
  {
    if a == [] {
      assert a + b == b;
    } else {
      assert (a + b)[0] == a[0];
      assert (a + b)[1..] == a[1..] + b;
      EncodeAppend(a[1..], b);
    }
  }

  lemma {:induction false} HexRoundTrip(d: int)
    requires 0 <= d < 16
    ensures HexValue(HexDigit(d)) == Some(d)
  {
  }

  lemma {:induction false} ByteAtPercent(b: byte, t: string)
    ensures ByteAt(PercentByte(b) + t) == Some(b)
  {
    var s := PercentByte(b) + t;
    HexRoundTrip(b as int / 16);
    HexRoundTrip(b as int % 16);
    assert s[1] == HexDigit(b as int / 16) && s[2] == HexDigit(b as int % 16);
  }

  lemma {:induction false} ReadPercentBytes(bs: seq<byte>, t: string)
    ensures ReadBytes(PercentBytes(bs) + t, |bs|) == Some(bs)
  {
    if bs != [] {
      var s := PercentBytes(bs) + t;
      var rest := PercentBytes(bs[1..]) + t;
      PercentBytesCons(bs, t);
      ReadPercentBytes(bs[1..], t);
      ByteAtPercent(bs[0], rest);
      assert ReadBytes(s, |bs|) == Some([bs[0]] + bs[1..]);
      assert [bs[0]] + bs[1..] == bs;
    }
  }

  lemma {:induction false} PercentBytesCons(bs: seq<byte>, t: string)
    requires bs != []
    ensures PercentBytes(bs) + t == PercentByte(bs[0]) + (PercentBytes(bs[1..]) + t)
    ensures (PercentBytes(bs) + t)[3..] == PercentBytes(bs[1..]) + t
  {
  }

  lemma {:induction false} Utf8RoundTrip1(c: char)
    requires c as int < 0x80
    ensures SequenceLength(Utf8(c)[0]) == |Utf8(c)|
    ensures Utf8Decode(Utf8(c)) == Some(c)
  {
  }

  lemma {:induction false} Utf8RoundTrip2(c: char)
    requires 0x80 <= c as int < 0x800
    ensures SequenceLength(Utf8(c)[0]) == |Utf8(c)|
    ensures Utf8Decode(Utf8(c)) == Some(c)
  {
    var n := c as int;
    var bs := Utf8(c);
    assert bs == [(0xC0 + n / 64) as byte, (0x80 + n % 64) as byte];
    assert 0xC2 <= bs[0] < 0xE0;
    assert IsContinuation(bs[1]);
    assert Utf8Value(bs) == (n / 64) * 64 + n % 64 == n;
  }

  lemma {:induction false} Utf8RoundTrip3(c: char)
    requires 0x800 <= c as int < 0x1_0000
    ensures SequenceLength(Utf8(c)[0]) == |Utf8(c)|
    ensures Utf8Decode(Utf8(c)) == Some(c)
  {
    var n := c as int;
    var q1, q2 := n / 64, n / 64 / 64;
    assert n == q1 * 64 + n % 64 && q1 == q2 * 64 + q1 % 64;
    var bs := Utf8(c);
    assert bs == [(0xE0 + q2) as byte, (0x80 + q1 % 64) as byte, (0x80 + n % 64) as byte];
    assert 0xE0 <= bs[0] < 0xF0;
    assert IsContinuation(bs[1]) && IsContinuation(bs[2]);
    assert Utf8Value(bs) == n;
  }

  lemma {:induction false} Utf8RoundTrip4(c: char)
    requires 0x1_0000 <= c as int
    ensures SequenceLength(Utf8(c)[0]) == |Utf8(c)|
    ensures Utf8Decode(Utf8(c)) == Some(c)
  {
    var n := c as int;
    var q1, q2, q3 := n / 64, n / 64 / 64, n / 64 / 64 / 64;
    assert n == q1 * 64 + n % 64 && q1 == q2 * 64 + q1 % 64 && q2 == q3 * 64 + q2 % 64;
    var bs := Utf8(c);
    assert bs == [(0xF0 + q3) as byte, (0x80 + q2 % 64) as byte, (0x80 + q1 % 64) as byte, (0x80 + n % 64) as byte];
    assert 0xF0 <= bs[0] < 0xF8;
    assert IsContinuation(bs[1]) && IsContinuation(bs[2]) && IsContinuation(bs[3]);
    assert Utf8Value(bs) == n;
  }

  /** Decoding the UTF-8 bytes of a character gives the character back. */
  lemma {:induction false} Utf8RoundTrip(c: char)
    ensures SequenceLength(Utf8(c)[0]) == |Utf8(c)|
    ensures Utf8Decode(Utf8(c)) == Some(c)
  {
    if c as int < 0x80 {
      Utf8RoundTrip1(c);
    } else if c as int < 0x800 {
      Utf8RoundTrip2(c);
    } else if c as int < 0x1_0000 {
      Utf8RoundTrip3(c);
    } else {
      Utf8RoundTrip4(c);
    }
  }

  lemma {:induction false} DecodeEscaped(c: char, t: string)
    requires !IsUnescaped(c)
    ensures Decode(PercentBytes(Utf8(c)) + t) == Prepend(c, Decode(t))
  {
    var bs := Utf8(c);
    var s := PercentBytes(bs) + t;
    ReadPercentBytes(bs, t);
    Utf8RoundTrip(c);
    PercentBytesCons(bs, t);
    ByteAtPercent(bs[0], PercentBytes(bs[1..]) + t);
    assert s[3 * |bs|..] == t;
    DecodeSequence(s, bs, c);
  }

  /** One escaped UTF-8 sequence at the head of the text decodes to its character. */
  lemma {:induction false} DecodeSequence(s: string, bs: seq<byte>, c: char)
    requires 1 <= |bs| <= 4 && |s| >= 3 * |bs|
    requires s[0] == '%' && ByteAt(s) == Some(bs[0]) && SequenceLength(bs[0]) == |bs|
    requires ReadBytes(s, |bs|) == Some(bs) && Utf8Decode(bs) == Some(c)
    ensures Decode(s) == Prepend(c, Decode(s[3 * |bs|..]))
  {
  }

  lemma {:induction false} DecodeEncodeChar(c: char, t: string)
    ensures Decode(EncodeChar(c) + t) == Prepend(c, Decode(t))
  {
    if IsUnescaped(c) {
      var s := EncodeChar(c) + t;
      assert s[0] == c && s[1..] == t;
    } else {
      DecodeEscaped(c, t);
    }
  }

  /** `decodeURIComponent(encodeURIComponent(s)) == s`: the encoding is injective. */
  lemma {:induction false} DecodeEncode(s: string)
    ensures Decode(Encode(s)) == Some(s)
  {
    if s != [] {
      DecodeEncode(s[1..]);
      DecodeEncodeChar(s[0], Encode(s[1..]));
      assert [s[0]] + s[1..] == s;
    }
  }

  /** Distinct strings never share an encoding. */
  lemma {:induction false} EncodeInjective(s: string, t: string)
    requires Encode(s) == Encode(t)
    ensures s == t
  {
    DecodeEncode(s);
    DecodeEncode(t);
  }
}
