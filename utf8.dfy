/**
  UTF-8 as defined in RFC 3629: the encoding behind
  `String.getBytes(StandardCharsets.UTF_8)`, which the service uses to turn
  an `id` into a storage key.  A Dafny `char` is a Unicode scalar value, so
  every string here is well formed.  The decoder is not part of the service;
  it is the reference definition that shows the encoder loses nothing.
*/
module Utf8 {
  import opened Wrappers

  newtype byte = x: int | 0 <= x < 256

  /** Code points that a `char` can hold: everything but the surrogates. */
  predicate IsScalar(n: int) {
    0 <= n < 0xD800 || 0xE000 <= n < 0x11_0000
  }

  /** A continuation byte, 10xxxxxx. */
  predicate IsContinuation(b: byte) {
    0x80 <= b < 0xC0
  }

  /** The sequence length a leading byte announces; 0 if it cannot lead
      (a continuation byte, C0, C1 or F5..FF: section 4 of RFC 3629). */
  function SequenceLength(b: byte): nat {
    if b < 0x80 then 1
    else if 0xC2 <= b < 0xE0 then 2
    else if 0xE0 <= b < 0xF0 then 3
    else if 0xF0 <= b < 0xF5 then 4
    else 0
  }

  /** The shortest encoding of one scalar value (section 3 of RFC 3629). */
  function EncodeScalar(c: char): (r: seq<byte>)
    ensures 1 <= |r| <= 4
    ensures SequenceLength(r[0]) == |r|
    ensures forall i :: 1 <= i < |r| ==> IsContinuation(r[i])
    ensures |r| == 1 <==> (c as int) < 0x80
  {
    var n := c as int;
    if n < 0x80 then
      [n as byte]
    else if n < 0x800 then
      [(0xC0 + n / 64) as byte, (0x80 + n % 64) as byte]
    else if n < 0x1_0000 then
      [(0xE0 + n / 4096) as byte, (0x80 + n / 64 % 64) as byte, (0x80 + n % 64) as byte]
    else
      [(0xF0 + n / 262144) as byte, (0x80 + n / 4096 % 64) as byte,
       (0x80 + n / 64 % 64) as byte, (0x80 + n % 64) as byte]
  }

  /** The UTF-8 bytes of a string: each character's encoding, in order. */
  function Encode(s: string): (r: seq<byte>)
    ensures |s| <= |r| <= 4 * |s|
  {
    if s == [] then [] else EncodeScalar(s[0]) + Encode(s[1..])
  }

  /** Continuation bytes hold six payload bits each. */
  function Payload(b: byte): int
    requires IsContinuation(b)
  {
    b as int - 0x80
  }

  /** The bytes after the leading one, up to `len`, are all continuations. */
  predicate ContinuationsFollow(bs: seq<byte>, len: nat)
    requires len <= |bs| && len <= 4
  {
    && (len < 2 || IsContinuation(bs[1]))
    && (len < 3 || IsContinuation(bs[2]))
    && (len < 4 || IsContinuation(bs[3]))
  }

  /** Reads one well-formed sequence from the front of `bs`: the character
      and the number of bytes it took.  Overlong forms, surrogates and code
      points above U+10FFFF are refused. */
  function DecodeScalar(bs: seq<byte>): (r: Option<(char, nat)>)
    ensures r.Some? ==> 1 <= r.value.1 <= |bs| && r.value.1 == SequenceLength(bs[0])
  {
    if bs == [] then None
    else
      var len := SequenceLength(bs[0]);
      if len == 0 || |bs| < len then None
      else if !ContinuationsFollow(bs, len) then None
      else if len == 1 then
        Some(((bs[0] as int) as char, 1))
      else if len == 2 then
        var n := (bs[0] as int - 0xC0) * 64 + Payload(bs[1]);
        Some((n as char, 2))
      else if len == 3 then
        var n := (bs[0] as int - 0xE0) * 4096 + Payload(bs[1]) * 64 + Payload(bs[2]);
        if n < 0x800 || !IsScalar(n) then None else Some((n as char, 3))
      else
        var n := (bs[0] as int - 0xF0) * 262144 + Payload(bs[1]) * 4096
                 + Payload(bs[2]) * 64 + Payload(bs[3]);
        if n < 0x1_0000 || !IsScalar(n) then None else Some((n as char, 4))
  }

  /** Decodes a whole byte sequence, or None if it is not valid UTF-8. */
  function Decode(bs: seq<byte>): (r: Option<string>)
    ensures r.Some? ==> |r.value| <= |bs|
    decreases |bs|
  {
    if bs == [] then Some([])
    else match DecodeScalar(bs)
      case None => None
      case Some((c, k)) =>
        match Decode(bs[k..])
        case None => None
        case Some(rest) => Some([c] + rest)
  }

  /** A number is its six low bits plus 64 times the rest. */
  lemma JoinSix(n: int)
    requires 0 <= n
    ensures n == (n / 64) * 64 + n % 64 && 0 <= n % 64 < 64
  {
  }

  lemma DecodeTwoBytes(c: char, tail: seq<byte>)
    requires 0x80 <= c as int < 0x800
    ensures DecodeScalar(EncodeScalar(c) + tail) == Some((c, 2))
  {
    JoinSix(c as int);
  }

  lemma DecodeThreeBytes(c: char, tail: seq<byte>)
    requires 0x800 <= c as int < 0x1_0000
    ensures DecodeScalar(EncodeScalar(c) + tail) == Some((c, 3))
  {
    var n := c as int;
    JoinSix(n);
    JoinSix(n / 64);
    assert n / 64 / 64 == n / 4096;
  }

  lemma DecodeFourBytes(c: char, tail: seq<byte>)
    requires 0x1_0000 <= c as int
    ensures DecodeScalar(EncodeScalar(c) + tail) == Some((c, 4))
  {
    var n := c as int;
    JoinSix(n);
    JoinSix(n / 64);
    JoinSix(n / 4096);
    assert n / 64 / 64 == n / 4096;
    assert n / 4096 / 64 == n / 262144;
  }

  /** Decoding the encoding of one character, with anything behind it,
      gives that character back and consumes exactly its bytes. */
  lemma DecodeScalarEncodeScalar(c: char, tail: seq<byte>)
    ensures DecodeScalar(EncodeScalar(c) + tail) == Some((c, |EncodeScalar(c)|))
  {
    var n := c as int;
    if n < 0x80 {
    } else if n < 0x800 {
      DecodeTwoBytes(c, tail);
    } else if n < 0x1_0000 {
      DecodeThreeBytes(c, tail);
    } else {
      DecodeFourBytes(c, tail);
    }
  }

  /** Round trip: decoding an encoded string gives the string back. */
  lemma {:induction false} DecodeEncode(s: string)
    ensures Decode(Encode(s)) == Some(s)
  {
    if s != [] {
      var e := EncodeScalar(s[0]);
      DecodeScalarEncodeScalar(s[0], Encode(s[1..]));
      assert (e + Encode(s[1..]))[|e|..] == Encode(s[1..]);
      DecodeEncode(s[1..]);
      assert [s[0]] + s[1..] == s;
    }
  }

  /** Distinct strings have distinct encodings. */
  lemma EncodeInjective(s: string, t: string)
    ensures Encode(s) == Encode(t) ==> s == t
  {
    DecodeEncode(s);
    DecodeEncode(t);
  }

  /** A non-empty string never encodes to an empty key, and the empty
      string is the only one that does. */
  lemma EncodeEmptyIff(s: string)
    ensures Encode(s) == [] <==> s == []
  {
  }

  /** Splitting a number built from a high part and a six-bit low part. */
  lemma SplitSix(hi: int, lo: int)
    requires 0 <= hi && 0 <= lo < 64
    ensures (hi * 64 + lo) / 64 == hi && (hi * 64 + lo) % 64 == lo
  {
  }

  lemma DecodeScalarTwo(bs: seq<byte>)
    requires DecodeScalar(bs).Some? && SequenceLength(bs[0]) == 2
    ensures EncodeScalar(DecodeScalar(bs).value.0) == bs[..2]
  {
    SplitSix(bs[0] as int - 0xC0, Payload(bs[1]));
  }

  lemma DecodeScalarThree(bs: seq<byte>)
    requires DecodeScalar(bs).Some? && SequenceLength(bs[0]) == 3
    ensures EncodeScalar(DecodeScalar(bs).value.0) == bs[..3]
  {
    var m := (bs[0] as int - 0xE0) * 64 + Payload(bs[1]);
    SplitSix(m, Payload(bs[2]));
    SplitSix(bs[0] as int - 0xE0, Payload(bs[1]));
    var n := m * 64 + Payload(bs[2]);
    assert n / 4096 == m / 64 by {
      assert n / 4096 == (n / 64) / 64;
    }
  }

  lemma DecodeScalarFour(bs: seq<byte>)
    requires DecodeScalar(bs).Some? && SequenceLength(bs[0]) == 4
    ensures EncodeScalar(DecodeScalar(bs).value.0) == bs[..4]
  {
    var h := bs[0] as int - 0xF0;
    var m1 := h * 64 + Payload(bs[1]);
    var m2 := m1 * 64 + Payload(bs[2]);
    var n := m2 * 64 + Payload(bs[3]);
    SplitSix(h, Payload(bs[1]));
    SplitSix(m1, Payload(bs[2]));
    SplitSix(m2, Payload(bs[3]));
    assert n == h * 262144 + Payload(bs[1]) * 4096 + Payload(bs[2]) * 64 + Payload(bs[3]);
    assert n / 4096 == m1 by {
      assert n / 4096 == (n / 64) / 64;
    }
    assert n / 262144 == h by {
      assert n / 262144 == (n / 4096) / 64;
    }
  }

  /** Re-encoding a decoded character reproduces the bytes it was read from. */
  lemma EncodeScalarDecodeScalar(bs: seq<byte>)
    requires DecodeScalar(bs).Some?
    ensures EncodeScalar(DecodeScalar(bs).value.0) == bs[..DecodeScalar(bs).value.1]
  {
    var len := SequenceLength(bs[0]);
    if len == 2 {
      DecodeScalarTwo(bs);
    } else if len == 3 {
      DecodeScalarThree(bs);
    } else if len == 4 {
      DecodeScalarFour(bs);
    }
  }

  /** Encoding a string is encoding its first character, then the rest. */
  lemma EncodeCons(c: char, rest: string)
    ensures Encode([c] + rest) == EncodeScalar(c) + Encode(rest)
  {
    assert ([c] + rest)[1..] == rest;
  }

  lemma SplitAt(bs: seq<byte>, k: nat)
    requires k <= |bs|
    ensures bs[..k] + bs[k..] == bs
  {
  }

  /** A successful decode is one character, then the decode of what follows. */
  lemma DecodeStep(bs: seq<byte>)
    requires bs != [] && Decode(bs).Some?
    ensures DecodeScalar(bs).Some?
    ensures var k := DecodeScalar(bs).value.1;
      Decode(bs[k..]).Some? && Decode(bs).value == [DecodeScalar(bs).value.0] + Decode(bs[k..]).value
  {
  }

  /** The other half of the round trip: whatever decodes is exactly the
      encoding of what it decodes to, so Encode maps strings one-to-one onto
      the valid UTF-8 byte sequences. */
  lemma {:induction false} EncodeDecode(bs: seq<byte>)
    requires Decode(bs).Some?
    ensures Encode(Decode(bs).value) == bs
    decreases |bs|
  {
    if bs != [] {
      DecodeStep(bs);
      var c := DecodeScalar(bs).value.0;
      var k := DecodeScalar(bs).value.1;
      var rest := Decode(bs[k..]).value;
      EncodeScalarDecodeScalar(bs);
      EncodeDecode(bs[k..]);
      EncodeCons(c, rest);
      SplitAt(bs, k);
    }
  }


}
