/**
 Branch names as channel keys and as paths (apps/bundler/src/branchChannel.ts).
 */
module BranchChannel {
  import opened Options
  import opened Utf8
  import opened Text

  // ------------------------------------------------------------------ channel keys

  predicate Letter(c: char) { 'A' <= c <= 'Z' || 'a' <= c <= 'z' || '0' <= c <= '9' }

  predicate Literal(c: char) { Letter(c) || c == '.' || c == '-' }

  predicate KeyChar(c: char) { Literal(c) || c == '_' }

  type Digit = d: int | 0 <= d < 16

  function LowerHex(d: Digit): char { if d < 10 then ('0' as int + d) as char else ('a' as int + d - 10) as char }

  function UpperHex(d: Digit): char { if d < 10 then ('0' as int + d) as char else ('A' as int + d - 10) as char }

  function HexValue(c: char): Option<Digit> {
    if '0' <= c <= '9' then Some(c as int - '0' as int)
    else if 'a' <= c <= 'f' then Some(c as int - 'a' as int + 10)
    else if 'A' <= c <= 'F' then Some(c as int - 'A' as int + 10)
    else None
  }

  function KeyOfByte(b: Byte): string {
    if Literal(b as char) then [b as char] else ['_', LowerHex(b / 16), LowerHex(b % 16)]
  }

  function KeyOfBytes(bytes: seq<Byte>): string {
    if bytes == [] then [] else KeyOfByte(bytes[0]) + KeyOfBytes(bytes[1..])
  }

  /**
   Letters, digits, dot and dash stand for themselves; every other byte is an underscore and two lower-case digits.
   */
  lemma KeySpelled(b: Byte, rest: seq<Byte>)
    ensures KeyOfBytes([b] + rest) ==
              (if 'A' as int <= b <= 'Z' as int || 'a' as int <= b <= 'z' as int || '0' as int <= b <= '9' as int
                 || b == 46 || b == 45 then [b as char]
               else ['_', "0123456789abcdef"[b / 16], "0123456789abcdef"[b % 16]])
              + KeyOfBytes(rest)
  {
    assert ([b] + rest)[1..] == rest;
  }

  function ChannelKey(branch: string): string { KeyOfBytes(Utf8.Encode(branch)) }

  /** The reader of channel keys. */
  function BytesOfKey(key: string): Option<seq<Byte>> {
    if key == [] then Some([])
    else if Literal(key[0]) then
      var rest := BytesOfKey(key[1..]);
      if rest.None? then None else Some([key[0] as int] + rest.value)
    else if key[0] != '_' || |key| < 3 || HexValue(key[1]).None? || HexValue(key[2]).None? then None
    else
      var rest := BytesOfKey(key[3..]);
      if rest.None? then None else Some([HexValue(key[1]).value * 16 + HexValue(key[2]).value as int] + rest.value)
  }

  lemma HexRoundTrip(d: Digit)
    ensures HexValue(LowerHex(d)) == Some(d) && HexValue(UpperHex(d)) == Some(d)
    ensures Letter(LowerHex(d)) && Letter(UpperHex(d))
  {}

  lemma {:induction false} KeyReadsBack(bytes: seq<Byte>)
    ensures BytesOfKey(KeyOfBytes(bytes)) == Some(bytes)
    ensures forall c :: c in KeyOfBytes(bytes) ==> KeyChar(c)
  {
    if bytes != [] {
      var b, key := bytes[0], KeyOfBytes(bytes);
      KeyReadsBack(bytes[1..]);
      HexRoundTrip(b / 16);
      HexRoundTrip(b % 16);
      assert key[|KeyOfByte(b)|..] == KeyOfBytes(bytes[1..]);
      assert bytes == [b] + bytes[1..];
    }
  }

  /** A channel key decodes to its branch, uses only letters, digits, dot, dash and underscore, and names one branch. */
  lemma ChannelKeyIsInjective(branch: string, other: string)
    ensures BytesOfKey(ChannelKey(branch)) == Some(Utf8.Encode(branch))
        && Utf8.Decode(Utf8.Encode(branch)) == Some(branch)
    ensures forall c :: c in ChannelKey(branch) ==> KeyChar(c)
    ensures ChannelKey(branch) == ChannelKey(other) <==> branch == other
  {
    KeyReadsBack(Utf8.Encode(branch));
    KeyReadsBack(Utf8.Encode(other));
    Utf8.RoundTrip(branch);
    if ChannelKey(branch) == ChannelKey(other) {
      Utf8.Injective(branch, other);
    }
  }

  // ------------------------------------------------------------------ branch paths

  /** The characters `encodeURIComponent` leaves alone. */
  predicate Unescaped(c: char) { Letter(c) || c in "-_.!~*'()" }

  function Escapes(bytes: seq<Byte>): string {
    if bytes == [] then [] else ['%', UpperHex(bytes[0] / 16), UpperHex(bytes[0] % 16)] + Escapes(bytes[1..])
  }

  lemma EscapesSpelled(b: Byte, rest: seq<Byte>)
    ensures Escapes([b] + rest) ==
              ['%', "0123456789ABCDEF"[b / 16], "0123456789ABCDEF"[b % 16]] + Escapes(rest)
  {
    assert ([b] + rest)[1..] == rest;
  }

  /** The characters of section 2.3 of RFC 3986 and five more stand for themselves; the others are escaped. */
  lemma UriSpelled(c: char, rest: string)
    ensures UriComponent([c] + rest) ==
              (if 'A' <= c <= 'Z' || 'a' <= c <= 'z' || '0' <= c <= '9'
                 || c in {'-', '_', '.', '!', '~', '*', '\'', '(', ')'} then [c]
               else Escapes(Utf8.EncodeChar(c)))
              + UriComponent(rest)
  {
    assert ([c] + rest)[1..] == rest;
  }

  function UriChar(c: char): string { if Unescaped(c) then [c] else Escapes(Utf8.EncodeChar(c)) }

  /** `encodeURIComponent`. */
  function UriComponent(s: string): string { if s == [] then [] else UriChar(s[0]) + UriComponent(s[1..]) }

  /** One `%XX` for each of `n` bytes. */
  function ReadEscapes(s: string, n: nat): Option<seq<Byte>> {
    if n == 0 then Some([])
    else if |s| < 3 || s[0] != '%' || HexValue(s[1]).None? || HexValue(s[2]).None? then None
    else
      var rest := ReadEscapes(s[3..], n - 1);
      if rest.None? then None else Some([HexValue(s[1]).value * 16 + HexValue(s[2]).value as int] + rest.value)
  }

  /** `decodeURIComponent`; none is its `URIError`. */
  function DecodeUri(s: string): Option<string>
    decreases |s|
  {
    if s == [] then Some([])
    else if s[0] != '%' then
      var rest := DecodeUri(s[1..]);
      if rest.None? then None else Some([s[0]] + rest.value)
    else
      var lead := ReadEscapes(s, 1);
      if lead.None? || lead.value == [] then None
      else
        var width := WidthOf(lead.value[0]);
        var bytes := ReadEscapes(s, width);
        if width == 0 || |s| < 3 * width || bytes.None? then None
        else
          var c, rest := Utf8.DecodeChar(bytes.value), DecodeUri(s[3 * width..]);
          if c.None? || rest.None? then None else Some([c.value] + rest.value)
  }

  function Components(parts: seq<string>): (r: seq<string>)
    ensures |r| == |parts|
  {
    if parts == [] then [] else [UriComponent(parts[0])] + Components(parts[1..])
  }

  function BranchPath(branch: string): string { "/" + Join(Components(Split(branch, '/')), '/') }

  function StripStart(s: string): string { if s != [] && s[0] == '/' then StripStart(s[1..]) else s }

  function StripEnd(s: string): string { if s != [] && s[|s| - 1] == '/' then StripEnd(s[..|s| - 1]) else s }

  predicate PartOk(part: string) { part != [] && part[0] != '.' }

  /** Every part is non-empty and does not start with a dot. */
  predicate BranchOk(branch: string) { forall i :: 0 <= i < |Split(branch, '/')| ==> PartOk(Split(branch, '/')[i]) }

  /** In terms of its characters: not empty, no slash at an end or beside another, no dot at the start of a part. */
  ghost predicate PlainParts(s: string) {
    && s != "" && s[0] != '/' && s[0] != '.' && s[|s| - 1] != '/'
    && forall i :: 0 < i < |s| && s[i - 1] == '/' ==> s[i] != '/' && s[i] != '.'
  }

  lemma BranchOkSpelled(s: string)
    ensures BranchOk(s) <==> PlainParts(s)
  {
    LaterPartsOk(s);
    FirstPartOk(s);
    assert BranchOk(s) ==> PartOk(Split(s, '/')[0]);
  }

  lemma FirstPartOk(s: string)
    ensures PartOk(Split(s, '/')[0]) <==> s != "" && s[0] != '/' && s[0] != '.'
  {}

  lemma {:induction false} LaterPartsOk(s: string)
    ensures (forall i :: 0 < i < |Split(s, '/')| ==> PartOk(Split(s, '/')[i])) <==>
              && (s != "" ==> s[|s| - 1] != '/')
              && forall i :: 0 < i < |s| && s[i - 1] == '/' ==> s[i] != '/' && s[i] != '.'
  {
    if s != "" {
      var t, parts, rest := s[1..], Split(s, '/'), Split(s[1..], '/');
      LaterPartsOk(t);
      FirstPartOk(t);
      if s[0] == '/' {
        OneMorePart([], rest);
      } else {
        assert |parts| == |rest| && forall i :: 0 < i < |parts| ==> parts[i] == rest[i];
      }
      LaterCharacters(s);
      hide PartOk;
    }
  }

  lemma OneMorePart(part: string, rest: seq<string>)
    requires rest != []
    ensures (forall i :: 0 < i < |[part] + rest| ==> PartOk(([part] + rest)[i])) <==>
              PartOk(rest[0]) && forall i :: 0 < i < |rest| ==> PartOk(rest[i])
  {
    var parts := [part] + rest;
    assert forall i :: 0 <= i < |rest| ==> rest[i] == parts[i + 1];
    hide PartOk;
    if forall i :: 0 < i < |rest| ==> PartOk(rest[i]) {
      forall i | 1 < i < |parts| ensures PartOk(parts[i]) { assert parts[i] == rest[i - 1]; }
    }
  }

  lemma LaterCharacters(s: string)
    requires s != ""
    ensures (forall i :: 0 < i < |s| && s[i - 1] == '/' ==> s[i] != '/' && s[i] != '.') <==>
              && (s[0] == '/' && |s| > 1 ==> s[1] != '/' && s[1] != '.')
              && forall i :: 0 < i < |s[1..]| && s[1..][i - 1] == '/' ==> s[1..][i] != '/' && s[1..][i] != '.'
  {
    var t := s[1..];
    assert forall i :: 0 < i < |t| ==> t[i] == s[i + 1] && t[i - 1] == s[i];
    if forall i :: 0 < i < |t| && t[i - 1] == '/' ==> t[i] != '/' && t[i] != '.' {
      forall i | 1 < i < |s| && s[i - 1] == '/' ensures s[i] != '/' && s[i] != '.' {
        assert t[i - 2] == s[i - 1] && t[i - 1] == s[i];
      }
    }
  }

  function BranchFromPath(pathname: string): Option<string> {
    var branch := DecodeUri(StripEnd(StripStart(pathname)));
    if branch.None? || !BranchOk(branch.value) then None else branch
  }

  // ------------------------------------------------------------------ the proofs

  /** The path's text: each character escaped where it stands, slashes kept. */
  function PathChar(c: char): string { if c == '/' then "/" else UriChar(c) }

  function PathText(s: string): string { if s == [] then [] else PathChar(s[0]) + PathText(s[1..]) }

  lemma {:induction false} JoinIsPathText(s: string)
    ensures Join(Components(Split(s, '/')), '/') == PathText(s)
  {
    if s != [] {
      var rest := Split(s[1..], '/');
      JoinIsPathText(s[1..]);
      if s[0] == '/' {
        assert Split(s, '/')[1..] == rest;
        assert Components(Split(s, '/')) == [UriComponent([])] + Components(rest);
        assert Components(Split(s, '/'))[1..] == Components(rest);
      } else {
        var first := [s[0]] + rest[0];
        assert first[1..] == rest[0] && Split(s, '/')[1..] == rest[1..];
        assert Components(Split(s, '/')) == [UriComponent(first)] + Components(rest[1..]);
        assert Components(rest) == [UriComponent(rest[0])] + Components(rest[1..]);
        JoinHead(UriChar(s[0]), UriComponent(rest[0]), Components(rest[1..]));
      }
    }
  }

  lemma JoinHead(a: string, b: string, more: seq<string>)
    ensures Join([a + b] + more, '/') == a + Join([b] + more, '/')
  {
    assert ([a + b] + more)[1..] == more && ([b] + more)[1..] == more;
  }

  lemma {:induction false} EscapesLength(bytes: seq<Byte>)
    ensures |Escapes(bytes)| == 3 * |bytes|
  {
    if bytes != [] { EscapesLength(bytes[1..]); }
  }

  lemma OneEscape(b: Byte, s: string)
    requires |s| >= 3 && s[0] == '%' && s[1] == UpperHex(b / 16) && s[2] == UpperHex(b % 16)
    ensures HexValue(s[1]).Some? && HexValue(s[2]).Some? && HexValue(s[1]).value * 16 + HexValue(s[2]).value as int == b
  {
    HexRoundTrip(b / 16);
    HexRoundTrip(b % 16);
  }

  lemma {:induction false} EscapesRead(bytes: seq<Byte>, rest: string, n: nat)
    requires n <= |bytes|
    ensures ReadEscapes(Escapes(bytes) + rest, n) == Some(bytes[..n])
  {
    hide HexValue, UpperHex;
    if n > 0 {
      var s := Escapes(bytes) + rest;
      EscapesRead(bytes[1..], rest, n - 1);
      assert s[3..] == Escapes(bytes[1..]) + rest;
      OneEscape(bytes[0], s);
      assert bytes[..n] == [bytes[0]] + bytes[1..][..n - 1];
    }
  }

  lemma EscapedReads(c: char, rest: string)
    ensures var s := Escapes(Utf8.EncodeChar(c)) + rest;
            DecodeUri(s) == if DecodeUri(rest).None? then None else Some([c] + DecodeUri(rest).value)
  {
    var bytes := Utf8.EncodeChar(c);
    var s := Escapes(bytes) + rest;
    Utf8.CharRoundTrip(c);
    EscapesLength(bytes);
    EscapesRead(bytes, rest, 1);
    EscapesRead(bytes, rest, |bytes|);
    assert bytes[..1][0] == bytes[0] && bytes[..|bytes|] == bytes;
    assert s[0] == Escapes(bytes)[0] == '%';
    assert s[3 * |bytes|..] == rest;
    hide Escapes, ReadEscapes, Utf8.EncodeChar, Utf8.DecodeChar, WidthOf;
  }

  lemma PlainReads(c: char, rest: string)
    requires c != '%'
    ensures DecodeUri([c] + rest) == if DecodeUri(rest).None? then None else Some([c] + DecodeUri(rest).value)
  {
    assert ([c] + rest)[1..] == rest;
  }

  lemma {:induction false} PathTextReads(s: string)
    ensures DecodeUri(PathText(s)) == Some(s)
  {
    hide DecodeUri;
    if s == [] {
      EmptyReads();
    } else {
      PathTextReads(s[1..]);
      if s[0] == '/' || Unescaped(s[0]) {
        PlainReads(s[0], PathText(s[1..]));
      } else {
        EscapedReads(s[0], PathText(s[1..]));
      }
      assert s == [s[0]] + s[1..];
    }
  }

  lemma EmptyReads()
    ensures DecodeUri([]) == Some([])
  {}

  lemma {:induction false} LastPart(s: string)
    requires s != [] && s[|s| - 1] == '/'
    ensures Split(s, '/')[|Split(s, '/')| - 1] == []
  {
    if |s| > 1 { LastPart(s[1..]); }
  }

  lemma PathCharEnds(c: char)
    requires c != '/'
    ensures PathChar(c) != [] && PathChar(c)[0] != '/' && PathChar(c)[|PathChar(c)| - 1] != '/'
  {
    if !Unescaped(c) { EscapesEnd(Utf8.EncodeChar(c)); }
  }

  lemma {:induction false} EscapesEnd(bytes: seq<Byte>)
    requires bytes != []
    ensures Escapes(bytes) != [] && Escapes(bytes)[0] == '%' && Escapes(bytes)[|Escapes(bytes)| - 1] != '/'
  {
    if |bytes| > 1 {
      EscapesEnd(bytes[1..]);
    } else {
      HexRoundTrip(bytes[0] % 16);
    }
  }

  lemma {:induction false} PathTextEnd(s: string)
    requires s != [] && s[|s| - 1] != '/'
    ensures PathText(s) != [] && PathText(s)[|PathText(s)| - 1] != '/'
  {
    if |s| > 1 {
      PathTextEnd(s[1..]);
    } else {
      PathCharEnds(s[0]);
    }
  }

  /** A well-formed branch neither starts nor ends with a slash, and so does not its path text. */
  lemma StrippedPath(branch: string)
    requires BranchOk(branch)
    ensures StripEnd(StripStart(BranchPath(branch))) == PathText(branch)
  {
    var text := PathText(branch);
    JoinIsPathText(branch);
    assert PartOk(Split(branch, '/')[0]) && PartOk(Split(branch, '/')[|Split(branch, '/')| - 1]);
    if branch[|branch| - 1] == '/' { LastPart(branch); }
    PathCharEnds(branch[0]);
    PathTextEnd(branch);
    assert text[0] == PathChar(branch[0])[0];
    assert BranchPath(branch) == "/" + text && BranchPath(branch)[1..] == text;
  }

  /** A branch comes back from its own path exactly when all its parts are non-empty and start with no dot. */
  lemma PathReadsBackExactlyWhenOk(branch: string)
    ensures BranchFromPath(BranchPath(branch)) == Some(branch) <==> PlainParts(branch)
  {
    BranchOkSpelled(branch);
    if BranchOk(branch) {
      StrippedPath(branch);
      PathTextReads(branch);
    }
  }
}
