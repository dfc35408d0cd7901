/**
 Mail headers and bodies (packages/gmail/src/mime.ts): encoded words of RFC 2047 and wrapped
 base64 bodies.
 */
module Mime {
  import opened Options
  import Utf8
  import Base64

  const WORD_BYTES := 45
  const LINE_MAX := 76
  const FOLD := "\r\n "
  const OPENING := "=?UTF-8?B?"
  const CLOSING := "?="

  predicate IsAscii(v: string) { forall c :: c in v ==> ' ' <= c <= '~' }

  function Bytes(v: string): nat { |Utf8.Encode(v)| }

  // ------------------------------------------------------------------ chunks

  /** One more character: it joins the last chunk when it still fits. */
  function AddChar(chunks: seq<string>, c: char): seq<string>
    requires chunks != []
  {
    var last := chunks[|chunks| - 1];
    if Bytes(last + [c]) > WORD_BYTES then chunks + [[c]] else chunks[..|chunks| - 1] + [last + [c]]
  }

  function Chunks(v: string): (chunks: seq<string>)
    ensures chunks != []
  {
    if v == [] then [""] else AddChar(Chunks(v[..|v| - 1]), v[|v| - 1])
  }

  /** `utf8Chunks`, filling its array. */
  method Utf8Chunks(v: string) returns (chunks: seq<string>)
    ensures chunks == Chunks(v)
  {
    chunks := [""];
    for i := 0 to |v|
      invariant chunks == Chunks(v[..i])
    {
      assert v[..i + 1][..i] == v[..i];
      var last := |chunks| - 1;
      if Bytes(chunks[last] + [v[i]]) > WORD_BYTES {
        chunks := chunks + [[v[i]]];
      } else {
        chunks := chunks[..last] + [chunks[last] + [v[i]]];
      }
    }
    assert v[..|v|] == v;
  }

  function Joined(parts: seq<string>): string {
    if parts == [] then [] else parts[0] + Joined(parts[1..])
  }

  lemma {:induction false} JoinedConcat(a: seq<string>, b: seq<string>)
    ensures Joined(a + b) == Joined(a) + Joined(b)
  {
    if a == [] {
      assert a + b == b;
    } else {
      assert (a + b)[1..] == a[1..] + b;
      JoinedConcat(a[1..], b);
    }
  }

  lemma CharBytes(c: char)
    ensures 1 <= Bytes([c]) <= 4
  {
    assert Utf8.Encode([c]) == Utf8.EncodeChar(c) + Utf8.Encode([]);
  }

  /** Every chunk fits and is not empty, and was closed only when the next character did not fit. */
  ghost predicate WellCut(chunks: seq<string>) {
    && (forall i :: 0 <= i < |chunks| ==> Bytes(chunks[i]) <= 45 && chunks[i] != [])
    && (forall i :: 0 <= i < |chunks| - 1 ==> Bytes(chunks[i] + [chunks[i + 1][0]]) > 45)
  }

  lemma AddCharWellCut(chunks: seq<string>, c: char)
    requires chunks != [] && (WellCut(chunks) || chunks == [""])
    ensures WellCut(AddChar(chunks, c))
  {
    CharBytes(c);
    hide Bytes;
    if chunks == [""] {
      assert "" + [c] == [c] && AddChar(chunks, c) == [[c]];
    }
  }

  lemma AddCharJoined(chunks: seq<string>, c: char)
    requires chunks != []
    ensures Joined(AddChar(chunks, c)) == Joined(chunks) + [c]
  {
    hide Bytes;
    var front, last := chunks[..|chunks| - 1], chunks[|chunks| - 1];
    assert chunks == front + [last];
    JoinedConcat(front, [last]);
    JoinedConcat(front, [last + [c]]);
    JoinedConcat(chunks, [[c]]);
    assert Joined([last]) == last && Joined([last + [c]]) == last + [c] && Joined([[c]]) == [c];
  }

  /** The chunks are whole characters of the value in order, cut as late as the limit allows. */
  lemma {:induction false} ChunksCutTheValue(v: string)
    ensures Joined(Chunks(v)) == v
    ensures if v == [] then Chunks(v) == [""] else WellCut(Chunks(v))
  {
    hide WellCut;
    if v != [] {
      var init, c := v[..|v| - 1], v[|v| - 1];
      ChunksCutTheValue(init);
      AddCharJoined(Chunks(init), c);
      AddCharWellCut(Chunks(init), c);
      assert v == init + [c];
    }
  }

  // ------------------------------------------------------------ encoded words

  function Word(chunk: string): string { OPENING + Base64.Encode(Utf8.Encode(chunk)) + CLOSING }

  function Folded(chunks: seq<string>): string
    requires chunks != []
  {
    if |chunks| == 1 then Word(chunks[0]) else Word(chunks[0]) + FOLD + Folded(chunks[1..])
  }

  function EncodedWord(v: string): string {
    if IsAscii(v) then v else Folded(Chunks(v))
  }

  /** A reader of one encoded word: section 2 of RFC 2047 with base64 and UTF-8. */
  function ReadWord(word: string): Option<string> {
    if |word| < |OPENING| + |CLOSING| || word[..|OPENING|] != OPENING || word[|word| - |CLOSING|..] != CLOSING then None
    else
      var bytes := Base64.Decode(word[|OPENING|..|word| - |CLOSING|]);
      if bytes.None? then None else Utf8.Decode(bytes.value)
  }

  function UntilReturn(text: string): (r: string)
    ensures r <= text
  {
    if text == [] || text[0] == '\r' then [] else [text[0]] + UntilReturn(text[1..])
  }

  /** A reader of a folded header: the space between adjacent encoded words is dropped (section 6.2). */
  function ReadWords(text: string): Option<string>
    decreases |text|
  {
    var word := UntilReturn(text);
    var first := ReadWord(word);
    if word == text then first
    else if first.None? || |text| < |word| + |FOLD| || text[|word|..|word| + |FOLD|] != FOLD then None
    else
      var rest := ReadWords(text[|word| + |FOLD|..]);
      if rest.None? then None else Some(first.value + rest.value)
  }

  lemma ReadWordReads(chunk: string)
    ensures ReadWord(Word(chunk)) == Some(chunk)
  {
    var body := Base64.Encode(Utf8.Encode(chunk));
    var word := Word(chunk);
    assert word[..|OPENING|] == OPENING && word[|word| - |CLOSING|..] == CLOSING;
    assert word[|OPENING|..|word| - |CLOSING|] == body;
    Base64.RoundTrip(Utf8.Encode(chunk));
    Utf8.RoundTrip(chunk);
  }

  lemma WordHasNoReturn(chunk: string)
    ensures '\r' !in Word(chunk)
  {
    Base64.EncodeLetters(Utf8.Encode(chunk));
    assert !Base64.Letter('\r');
  }

  lemma {:induction false} UntilReturnStops(word: string, rest: string)
    requires '\r' !in word && (rest == [] || rest[0] == '\r')
    ensures UntilReturn(word + rest) == word
  {
    if word == [] {
      assert word + rest == rest;
    } else {
      assert (word + rest)[1..] == word[1..] + rest;
      UntilReturnStops(word[1..], rest);
    }
  }

  /** Text that starts with a word and then a fold reads as that word and the rest. */
  lemma ReadFolded(chunk: string, rest: string, value: string)
    requires ReadWords(rest) == Some(value)
    ensures ReadWords(Word(chunk) + FOLD + rest) == Some(chunk + value)
  {
    ReadWordReads(chunk);
    WordHasNoReturn(chunk);
    hide Word, ReadWord;
    var word := Word(chunk);
    var text := word + FOLD + rest;
    assert text == word + (FOLD + rest);
    UntilReturnStops(word, FOLD + rest);
    assert text[|word|..|word| + |FOLD|] == FOLD && text[|word| + |FOLD|..] == rest;
  }

  lemma ReadLast(chunk: string)
    ensures ReadWords(Word(chunk)) == Some(chunk)
  {
    ReadWordReads(chunk);
    WordHasNoReturn(chunk);
    hide Word, ReadWord;
    UntilReturnStops(Word(chunk), []);
    assert Word(chunk) + [] == Word(chunk);
  }

  lemma {:induction false} ReadWordsReads(chunks: seq<string>)
    requires chunks != []
    ensures ReadWords(Folded(chunks)) == Some(Joined(chunks))
  {
    hide Word, ReadWords;
    if |chunks| == 1 {
      ReadLast(chunks[0]);
      assert chunks[1..] == [] && chunks[0] + [] == chunks[0];
    } else {
      ReadWordsReads(chunks[1..]);
      ReadFolded(chunks[0], Folded(chunks[1..]), Joined(chunks[1..]));
    }
  }

  lemma WordFits(chunk: string)
    requires Bytes(chunk) <= 45
    ensures |Word(chunk)| <= 75
  {
    var bytes := Utf8.Encode(chunk);
    hide Utf8.Encode, Base64.Encode;
    assert (|bytes| + 2) / 3 <= 15;
  }

  /**
   A value that needs encoding reads back unchanged from its folded encoded words, each of
   which is at most 75 characters and reads on its own as whole characters of the value.
   */
  lemma EncodedWordReadsBack(v: string, i: nat)
    requires !IsAscii(v) && i < |Chunks(v)|
    ensures ReadWords(EncodedWord(v)) == Some(v)
    ensures EncodedWord(v) == Folded(Chunks(v)) && Joined(Chunks(v)) == v
    ensures |Word(Chunks(v)[i])| <= 75 && ReadWord(Word(Chunks(v)[i])) == Some(Chunks(v)[i])
  {
    ChunksCutTheValue(v);
    ReadWordsReads(Chunks(v));
    WordFits(Chunks(v)[i]);
    ReadWordReads(Chunks(v)[i]);
  }

  /** Values in printable ASCII go out as they are; all others start and end as encoded words and read back. */
  lemma SentRawOrEncoded(v: string)
    ensures (forall c :: c in v ==> ' ' <= c <= '~') ==> EncodedWord(v) == v
    ensures !(forall c :: c in v ==> ' ' <= c <= '~') ==>
              var sent := EncodedWord(v);
              |sent| >= 12 && sent[..10] == "=?UTF-8?B?" && sent[|sent| - 2..] == "?=" && ReadWords(sent) == Some(v)
  {
    if !IsAscii(v) {
      EncodedWordReadsBack(v, 0);
      FoldedEnds(Chunks(v));
      hide Folded, Chunks, ReadWords;
    }
  }

  lemma {:induction false} FoldedEnds(chunks: seq<string>)
    requires chunks != []
    ensures var sent := Folded(chunks); |sent| >= 12 && sent[..10] == "=?UTF-8?B?" && sent[|sent| - 2..] == "?="
  {
    WordEnds(chunks[0]);
    hide Word;
    if |chunks| > 1 {
      FoldedEnds(chunks[1..]);
      var first, rest := Word(chunks[0]) + FOLD, Folded(chunks[1..]);
      EndsAfter(first, rest);
    }
  }

  lemma EndsAfter(first: string, rest: string)
    requires |first| >= 10 && |rest| >= 2
    ensures (first + rest)[..10] == first[..10]
    ensures (first + rest)[|first + rest| - 2..] == rest[|rest| - 2..]
  {
  }

  lemma WordEnds(chunk: string)
    ensures var word := Word(chunk); |word| >= 12 && word[..10] == "=?UTF-8?B?" && word[|word| - 2..] == "?="
  {
  }

  // ------------------------------------------------------------------ bodies

  /** Every 76 characters a line. */
  function Lined(s: string): string {
    if s == [] then []
    else if |s| <= LINE_MAX then s + "\r\n"
    else s[..LINE_MAX] + "\r\n" + Lined(s[LINE_MAX..])
  }

  function Base64Lines(data: seq<Utf8.Byte>): string { Lined(Base64.Encode(data)) }

  function Unlined(s: string): string {
    if s == [] then [] else if s[0] == '\r' || s[0] == '\n' then Unlined(s[1..]) else [s[0]] + Unlined(s[1..])
  }

  lemma {:induction false} UnlinedConcat(a: string, b: string)
    ensures Unlined(a + b) == Unlined(a) + Unlined(b)
  {
    if a == [] {
      assert a + b == b;
    } else {
      assert (a + b)[1..] == a[1..] + b;
      UnlinedConcat(a[1..], b);
    }
  }

  lemma {:induction false} UnlinedPlain(s: string)
    requires '\r' !in s && '\n' !in s
    ensures Unlined(s) == s
  {
    if s != [] {
      UnlinedPlain(s[1..]);
      assert s == [s[0]] + s[1..];
    }
  }

  lemma {:induction false} UnlinedLined(s: string)
    requires '\r' !in s && '\n' !in s
    ensures Unlined(Lined(s)) == s
  {
    assert Unlined("\r\n") == [] by { assert "\r\n"[1..] == "\n" && "\n"[1..] == []; }
    if |s| > LINE_MAX {
      var line, rest := s[..LINE_MAX], s[LINE_MAX..];
      UnlinedLined(rest);
      UnlinedPlain(line);
      UnlinedConcat(line, "\r\n");
      UnlinedConcat(line + "\r\n", Lined(rest));
      assert s == line + rest;
    } else if s != [] {
      UnlinedPlain(s);
      UnlinedConcat(s, "\r\n");
    }
  }

  /** A wrapped body decodes to its bytes once its line breaks are dropped. */
  lemma BodyReadsBack(data: seq<Utf8.Byte>)
    ensures Base64.Decode(Unlined(Base64Lines(data))) == Some(data)
  {
    Base64.EncodeLetters(data);
    assert !Base64.Letter('\r') && !Base64.Letter('\n');
    UnlinedLined(Base64.Encode(data));
    Base64.RoundTrip(data);
  }

  /** The lines of a body are full: a break stands after every 76 characters and at the end, and nowhere else. */
  lemma {:induction false} LinesAreFull(s: string)
    requires '\r' !in s
    ensures forall i :: 0 <= i < |Lined(s)| ==>
        (Lined(s)[i] == '\r' <==> (i % 78 == 76 && i < |Lined(s)| - 2) || i == |Lined(s)| - 2)
  {
    var lined := Lined(s);
    if |s| > LINE_MAX {
      var rest := Lined(s[LINE_MAX..]);
      LinesAreFull(s[LINE_MAX..]);
      assert |rest| > 2;
      forall i | 0 <= i < |lined|
          ensures lined[i] == '\r' <==> (i % (LINE_MAX + 2) == LINE_MAX && i < |lined| - 2) || i == |lined| - 2 {
        if i >= LINE_MAX + 2 {
          assert lined[i] == rest[i - (LINE_MAX + 2)];
        }
      }
    }
  }
}
