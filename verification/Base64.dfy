/** Base64 (section 4 of RFC 4648), as `Buffer.toString('base64')` writes it. */
module Base64 {
  import opened Options
  import opened Utf8

  type Six = d: int | 0 <= d < 64

  function CharOf(d: Six): char {
    (if d < 26 then 'A' as int + d
     else if d < 52 then 'a' as int + d - 26
     else if d < 62 then '0' as int + d - 52
     else if d == 62 then '+' as int
     else '/' as int) as char
  }

  function SixOf(c: char): Option<Six> {
    if 'A' <= c <= 'Z' then Some(c as int - 'A' as int)
    else if 'a' <= c <= 'z' then Some(c as int - 'a' as int + 26)
    else if '0' <= c <= '9' then Some(c as int - '0' as int + 52)
    else if c == '+' then Some(62)
    else if c == '/' then Some(63)
    else None
  }

  lemma SixRoundTrip(d: Six)
    ensures SixOf(CharOf(d)) == Some(d) && CharOf(d) != '='
  {}

  // Three bytes make four sextets, and the other way round.

  function Sextet1(a: Byte): Six { a / 4 }
  function Sextet2(a: Byte, b: Byte): Six { a % 4 * 16 + b / 16 }
  function Sextet3(b: Byte, c: Byte): Six { b % 16 * 4 + c / 64 }
  function Sextet4(c: Byte): Six { c % 64 }

  function Byte1(p: Six, q: Six): Byte { p * 4 + q / 16 }
  function Byte2(q: Six, r: Six): Byte { q % 16 * 16 + r / 4 }
  function Byte3(r: Six, s: Six): Byte { r % 4 * 64 + s }

  lemma SextetsRoundTrip(a: Byte, b: Byte, c: Byte)
    ensures Byte1(Sextet1(a), Sextet2(a, b)) == a
    ensures Byte2(Sextet2(a, b), Sextet3(b, c)) == b
    ensures Byte3(Sextet3(b, c), Sextet4(c)) == c
    ensures Sextet2(a, 0) % 16 == 0 && Sextet3(b, 0) % 4 == 0
  {}

  function Encode(bytes: seq<Byte>): (s: string)
    ensures |s| == (|bytes| + 2) / 3 * 4
  {
    if |bytes| == 0 then ""
    else if |bytes| == 1 then [CharOf(Sextet1(bytes[0])), CharOf(Sextet2(bytes[0], 0)), '=', '=']
    else if |bytes| == 2 then [CharOf(Sextet1(bytes[0])), CharOf(Sextet2(bytes[0], bytes[1])),
        CharOf(Sextet3(bytes[1], 0)), '=']
    else
      assert (|bytes| + 2) / 3 == (|bytes[3..]| + 2) / 3 + 1;
      [CharOf(Sextet1(bytes[0])), CharOf(Sextet2(bytes[0], bytes[1])), CharOf(Sextet3(bytes[1], bytes[2])),
          CharOf(Sextet4(bytes[2]))]
      + Encode(bytes[3..])
  }

  /** Table 1 of RFC 4648. */
  ghost predicate Stands(c: char, d: int) {
    || ('A' <= c <= 'Z' && c as int == 65 + d) || ('a' <= c <= 'z' && c as int == 71 + d)
    || ('0' <= c <= '9' && c as int == d - 4) || (c == '+' && d == 62) || (c == '/' && d == 63)
  }

  lemma SextetsSpelled(a: Byte, b: Byte, c: Byte)
    ensures var n := 65536 * a + 256 * b + c;
            && n / 262144 == Sextet1(a) && n / 4096 % 64 == Sextet2(a, b)
            && n / 64 % 64 == Sextet3(b, c) && n % 64 == Sextet4(c)
  {
    var n := 65536 * a + 256 * b + c;
    assert n / 4096 == 16 * a + b / 16;
    assert n / 64 == 1024 * a + 4 * b + c / 64;
  }

  /** Three bytes are one number of 24 bits, written as four digits. */
  lemma EncodeSpelled(a: Byte, b: Byte, c: Byte, rest: seq<Byte>)
    ensures var n, s := 65536 * a + 256 * b + c, Encode([a, b, c] + rest);
            && Stands(s[0], n / 262144) && Stands(s[1], n / 4096 % 64)
            && Stands(s[2], n / 64 % 64) && Stands(s[3], n % 64) && s[4..] == Encode(rest)
  {
    var bytes := [a, b, c] + rest;
    assert bytes[3..] == rest && bytes[0] == a && bytes[1] == b && bytes[2] == c;
    SextetsSpelled(a, b, c);
    CharStands(Sextet1(a));
    CharStands(Sextet2(a, b));
    CharStands(Sextet3(b, c));
    CharStands(Sextet4(c));
    hide CharOf, Stands, Sextet1, Sextet2, Sextet3, Sextet4;
  }

  lemma CharStands(d: Six)
    ensures Stands(CharOf(d), d)
  {}

  /** Missing bytes are zeros, and their digits are `=`. */
  lemma PaddingSpelled(a: Byte, b: Byte)
    ensures Encode([]) == ""
    ensures Encode([a, b]) == Encode([a, b, 0])[..3] + "=" && Encode([a]) == Encode([a, 0, 0])[..2] + "=="
  {
    hide CharOf;
  }

  /** The strict reader: padding only at the end, and no stray bits before it. */
  function Decode(s: string): Option<seq<Byte>> {
    if s == "" then Some([])
    else if |s| < 4 then None
    else
      var p, q, r, t := SixOf(s[0]), SixOf(s[1]), SixOf(s[2]), SixOf(s[3]);
      if p.None? || q.None? then None
      else if s[2] == '=' then (if |s| == 4 && s[3] == '=' && q.value % 16 == 0 then Some([Byte1(p.value, q.value)])
          else None)
      else if r.None? then None
      else if s[3] == '=' then (if |s| == 4
          && r.value % 4 == 0 then Some([Byte1(p.value, q.value), Byte2(q.value, r.value)]) else None)
      else if t.None? then None
      else
        var rest := Decode(s[4..]);
        if rest.None? then None
        else Some([Byte1(p.value, q.value), Byte2(q.value, r.value), Byte3(r.value, t.value)] + rest.value)
  }

  predicate Letter(c: char) { SixOf(c).Some? || c == '=' }

  lemma {:induction false} EncodeLetters(bytes: seq<Byte>)
    ensures forall c :: c in Encode(bytes) ==> Letter(c)
  {
    forall d: Six ensures Letter(CharOf(d)) { SixRoundTrip(d); }
    if |bytes| > 2 {
      EncodeLetters(bytes[3..]);
    }
  }

  /** A full quad reads as its three bytes, and reading goes on after it. */
  lemma QuadReads(p: Six, q: Six, r: Six, t: Six, rest: string)
    ensures Decode([CharOf(p), CharOf(q), CharOf(r), CharOf(t)] + rest)
         == if Decode(rest).None? then None else Some([Byte1(p, q), Byte2(q, r), Byte3(r, t)] + Decode(rest).value)
  {
    SixRoundTrip(p);
    SixRoundTrip(q);
    SixRoundTrip(r);
    SixRoundTrip(t);
    hide SixOf, CharOf, Byte1, Byte2, Byte3;
    assert ([CharOf(p), CharOf(q), CharOf(r), CharOf(t)] + rest)[4..] == rest;
  }

  lemma PaddedReads(p: Six, q: Six, r: Six)
    ensures q % 16 == 0 ==> Decode([CharOf(p), CharOf(q), '=', '=']) == Some([Byte1(p, q)])
    ensures r % 4 == 0 ==> Decode([CharOf(p), CharOf(q), CharOf(r), '=']) == Some([Byte1(p, q), Byte2(q, r)])
  {
    SixRoundTrip(p);
    SixRoundTrip(q);
    SixRoundTrip(r);
    hide SixOf, CharOf, Byte1, Byte2, Byte3;
  }

  /** Decoding what was encoded gives every byte back. */
  lemma {:induction false} RoundTrip(bytes: seq<Byte>)
    ensures Decode(Encode(bytes)) == Some(bytes)
  {
    hide Decode, CharOf, Sextet1, Sextet2, Sextet3, Sextet4, Byte1, Byte2, Byte3;
    if |bytes| == 0 {
      DecodeEmpty();
    } else if |bytes| == 1 {
      SextetsRoundTrip(bytes[0], 0, 0);
      PaddedReads(Sextet1(bytes[0]), Sextet2(bytes[0], 0), 0);
      assert bytes == [bytes[0]];
    } else if |bytes| == 2 {
      SextetsRoundTrip(bytes[0], bytes[1], 0);
      PaddedReads(Sextet1(bytes[0]), Sextet2(bytes[0], bytes[1]), Sextet3(bytes[1], 0));
      assert bytes == [bytes[0], bytes[1]];
    } else {
      SextetsRoundTrip(bytes[0], bytes[1], bytes[2]);
      RoundTrip(bytes[3..]);
      QuadReads(Sextet1(bytes[0]), Sextet2(bytes[0], bytes[1]), Sextet3(bytes[1], bytes[2]), Sextet4(bytes[2]),
          Encode(bytes[3..]));
      assert bytes == [bytes[0], bytes[1], bytes[2]] + bytes[3..];
    }
  }

  lemma LetterReads(c: char)
    requires SixOf(c).Some?
    ensures CharOf(SixOf(c).value) == c
  {}

  lemma BytesRoundTrip(p: Six, q: Six, r: Six, t: Six)
    ensures Sextet1(Byte1(p, q)) == p && Sextet2(Byte1(p, q), Byte2(q, r)) == q
    ensures Sextet3(Byte2(q, r), Byte3(r, t)) == r && Sextet4(Byte3(r, t)) == t
    ensures q % 16 == 0 ==> Sextet2(Byte1(p, q), 0) == q
    ensures r % 4 == 0 ==> Sextet3(Byte2(q, r), 0) == r
  {}

  /** What is read from a text that does not end in its first four characters with `=`. */
  lemma FullQuad(s: string, bytes: seq<Byte>)
    requires |s| >= 4 && s[3] != '=' && Decode(s) == Some(bytes)
    ensures |bytes| >= 3 && Decode(s[4..]) == Some(bytes[3..])
    ensures [bytes[0], bytes[1], bytes[2]] + bytes[3..] == bytes
    ensures forall i :: 0 <= i < 4 ==> SixOf(s[i]).Some?
    ensures var p, q, r, t := SixOf(s[0]).value, SixOf(s[1]).value, SixOf(s[2]).value, SixOf(s[3]).value;
            bytes[0] == Byte1(p, q) && bytes[1] == Byte2(q, r) && bytes[2] == Byte3(r, t)
  {
    hide SixOf, Byte1, Byte2, Byte3;
    var p, q, r, t := SixOf(s[0]), SixOf(s[1]), SixOf(s[2]), SixOf(s[3]);
    assert p.Some? && q.Some? && r.Some? && t.Some? && Decode(s[4..]).Some?;
    assert bytes == [Byte1(p.value, q.value), Byte2(q.value, r.value), Byte3(r.value, t.value)] + Decode(s[4..]).value;
  }

  /** The first four characters are those of the bytes read from them. */
  lemma QuadIsWritten(s: string, bytes: seq<Byte>)
    requires |s| >= 4 && s[3] != '=' && Decode(s) == Some(bytes)
    ensures |bytes| >= 3 && Encode(bytes) == s[..4] + Encode(bytes[3..])
  {
    FullQuad(s, bytes);
    hide SixOf, Decode, CharOf, Byte1, Byte2, Byte3, Sextet1, Sextet2, Sextet3, Sextet4;
    var p, q, r, t := SixOf(s[0]).value, SixOf(s[1]).value, SixOf(s[2]).value, SixOf(s[3]).value;
    BytesRoundTrip(p, q, r, t);
    LetterReads(s[0]);
    LetterReads(s[1]);
    LetterReads(s[2]);
    LetterReads(s[3]);
    assert s[..4] == [s[0], s[1], s[2], s[3]];
  }

  /** The same for the last four characters. */
  lemma LastIsWritten(s: string, bytes: seq<Byte>)
    requires |s| >= 4 && s[3] == '=' && Decode(s) == Some(bytes)
    ensures Encode(bytes) == s
  {
    hide SixOf, CharOf, Byte1, Byte2, Byte3, Sextet1, Sextet2, Sextet3, Sextet4;
    assert |s| == 4 && SixOf(s[0]).Some? && SixOf(s[1]).Some? && (s[2] != '=' ==> SixOf(s[2]).Some?);
    var p, q, r := SixOf(s[0]).value, SixOf(s[1]).value, if s[2] == '=' then 0 else SixOf(s[2]).value;
    BytesRoundTrip(p, q, r, 0);
    LetterReads(s[0]);
    LetterReads(s[1]);
    if s[2] != '=' { LetterReads(s[2]); }
    assert s == [s[0], s[1], s[2], s[3]];
  }

  /** A text is read as bytes exactly when it is their base64. */
  lemma {:induction false} ReadsExactly(s: string, bytes: seq<Byte>)
    ensures Decode(s) == Some(bytes) <==> s == Encode(bytes)
    decreases |s|
  {
    RoundTrip(bytes);
    if Decode(s) == Some(bytes) && s != "" {
      TextsAreQuads(s);
      if s[3] == '=' {
        LastIsWritten(s, bytes);
      } else {
        FullQuad(s, bytes);
        QuadIsWritten(s, bytes);
        ReadsExactly(s[4..], bytes[3..]);
        hide Decode, Encode;
        assert s == s[..4] + s[4..];
      }
    } else {
      DecodeEmpty();
    }
  }

  lemma TextsAreQuads(s: string)
    requires s != "" && Decode(s).Some?
    ensures |s| >= 4
  {}

  lemma DecodeEmpty()
    ensures Decode("") == Some([])
  {}
}
