/** UTF-8 (RFC 3629): one character is one to four bytes, and the bytes decode to it alone. */
module Utf8 {
  import opened Options

  type Byte = b: int | 0 <= b < 256

  /** The bytes of one character. A `char` is a Unicode scalar value. */
  function EncodeChar(c: char): (bytes: seq<Byte>)
    ensures 1 <= |bytes| <= 4
  {
    var u := c as int;
    if u < 0x80 then [u]
    else if u < 0x800 then [0xC0 + u / 64, 0x80 + u % 64]
    else if u < 0x10000 then [0xE0 + u / 4096, 0x80 + u / 64 % 64, 0x80 + u % 64]
    else [0xF0 + u / 262144, 0x80 + u / 4096 % 64, 0x80 + u / 64 % 64, 0x80 + u % 64]
  }

  function Encode(text: string): seq<Byte> {
    if text == [] then [] else EncodeChar(text[0]) + Encode(text[1..])
  }

  predicate IsTail(b: Byte) {
    0x80 <= b < 0xC0
  }

  predicate IsScalar(u: int) {
    0 <= u < 0xD800 || 0xE000 <= u < 0x110000
  }

  /** The number of bytes a character with this first byte takes; none for a byte that starts no character. */
  function WidthOf(lead: Byte): (width: nat)
    ensures width <= 4
  {
    if lead < 0x80 then 1
    else if 0xC2 <= lead < 0xE0 then 2
    else if 0xE0 <= lead < 0xF0 then 3
    else if 0xF0 <= lead < 0xF5 then 4
    else 0
  }

  /** The bits of a first byte that belong to the character. */
  function Payload(lead: int, width: nat): int {
    if width == 1 then lead else if width == 2 then lead - 0xC0 else if width == 3 then lead - 0xE0 else lead - 0xF0
  }

  /** Exactly the bytes of one character, in the shortest form and outside the surrogates. */
  function DecodeChar(bytes: seq<Byte>): Option<char> {
    if bytes == [] || WidthOf(bytes[0]) != |bytes| || exists i :: 1 <= i < |bytes| && !IsTail(bytes[i]) then None
    else
      var high := Payload(bytes[0], |bytes|);
      var u := if |bytes| == 1 then high
               else if |bytes| == 2 then high * 64 + bytes[1] - 0x80
               else if |bytes| == 3 then high * 4096 + (bytes[1] - 0x80) as int * 64 + bytes[2] - 0x80
               else high * 262144 + (bytes[1] - 0x80) as int * 4096 + (bytes[2] - 0x80) as int * 64 + bytes[3] - 0x80;
      if IsScalar(u) && (|bytes| == 3 ==> u >= 0x800) && (|bytes| == 4 ==> u >= 0x10000) then Some(u as char) else None
  }

  function Decode(bytes: seq<Byte>): Option<string> {
    if bytes == [] then Some("")
    else
      var width := WidthOf(bytes[0]);
      if width == 0 || width > |bytes| then None
      else
        var first, rest := DecodeChar(bytes[..width]), Decode(bytes[width..]);
        if first.Some? && rest.Some? then Some([first.value] + rest.value) else None
  }

  lemma SixBitDigits(u: nat)
    ensures u == u / 64 * 64 + u % 64
    ensures u / 64 == u / 4096 * 64 + u / 64 % 64
    ensures u / 4096 == u / 262144 * 64 + u / 4096 % 64
  {
    assert u / 64 / 64 == u / 4096;
    assert u / 4096 / 64 == u / 262144;
  }

  lemma CharRoundTrip(c: char)
    ensures WidthOf(EncodeChar(c)[0]) == |EncodeChar(c)|
    ensures DecodeChar(EncodeChar(c)) == Some(c)
  {
    var u, bytes := c as int, EncodeChar(c);
    SixBitDigits(u);
    if u < 0x800 {
    } else if u < 0x10000 {
      assert bytes == [0xE0 + u / 4096, 0x80 + u / 64 % 64, 0x80 + u % 64];
      assert DecodeChar(bytes) == Some(u as char);
    } else {
      assert bytes == [0xF0 + u / 262144, 0x80 + u / 4096 % 64, 0x80 + u / 64 % 64, 0x80 + u % 64];
      assert DecodeChar(bytes) == Some(u as char);
    }
  }

  /** Decoding the bytes of any text gives the text back. */
  lemma {:induction false} RoundTrip(text: string)
    ensures Decode(Encode(text)) == Some(text)
  {
    if text != [] {
      var head, tail := EncodeChar(text[0]), Encode(text[1..]);
      CharRoundTrip(text[0]);
      RoundTrip(text[1..]);
      assert (head + tail)[..|head|] == head && (head + tail)[|head|..] == tail;
      assert [text[0]] + text[1..] == text;
    }
  }

  lemma TwoDigits(h: nat, l: nat)
    requires l < 64
    ensures (h * 64 + l) / 64 == h && (h * 64 + l) % 64 == l
  {}

  lemma ThreeDigits(h: nat, m: nat, l: nat)
    requires m < 64 && l < 64
    ensures var u := h * 4096 + m * 64 + l; u / 4096 == h && u / 64 % 64 == m && u % 64 == l
  {
    TwoDigits(h * 64 + m, l);
    TwoDigits(h, m);
    SixBitDigits(h * 4096 + m * 64 + l);
  }

  lemma FourDigits(h: nat, m: nat, n: nat, l: nat)
    requires m < 64 && n < 64 && l < 64
    ensures var u := h * 262144 + m * 4096 + n * 64 + l;
            u / 262144 == h && u / 4096 % 64 == m && u / 64 % 64 == n && u % 64 == l
  {
    ThreeDigits(h * 64 + m, n, l);
    TwoDigits(h, m);
    SixBitDigits(h * 262144 + m * 4096 + n * 64 + l);
  }

  /** A character is read only from its own bytes. */
  lemma CharReadsExactly(bytes: seq<Byte>)
    requires DecodeChar(bytes).Some?
    ensures EncodeChar(DecodeChar(bytes).value) == bytes
  {
    assert forall i :: 1 <= i < |bytes| ==> IsTail(bytes[i]);
    if |bytes| == 2 {
      TwoDigits(bytes[0] - 0xC0, bytes[1] - 0x80);
    } else if |bytes| == 3 {
      ThreeDigits(bytes[0] - 0xE0, bytes[1] - 0x80, bytes[2] - 0x80);
    } else if |bytes| == 4 {
      FourDigits(bytes[0] - 0xF0, bytes[1] - 0x80, bytes[2] - 0x80, bytes[3] - 0x80);
    }
  }

  /** Bytes are read as a text exactly when they are its bytes. */
  lemma {:induction false} ReadsExactly(bytes: seq<Byte>, text: string)
    ensures Decode(bytes) == Some(text) <==> bytes == Encode(text)
    decreases |bytes|
  {
    RoundTrip(text);
    if bytes != [] && Decode(bytes) == Some(text) {
      var width := WidthOf(bytes[0]);
      CharReadsExactly(bytes[..width]);
      ReadsExactly(bytes[width..], text[1..]);
      hide EncodeChar, DecodeChar, WidthOf;
      assert bytes == bytes[..width] + bytes[width..];
    }
  }

  /** No two texts have the same bytes. */
  lemma Injective(a: string, b: string)
    requires Encode(a) == Encode(b)
    ensures a == b
  {
    RoundTrip(a);
    RoundTrip(b);
  }
}
