/**
 The two incremental line parsers: server-sent events (packages/cli/src/tail.ts) and the
 train protocol (packages/core/src/protocol.ts). Both keep an unfinished line between chunks.
 */
module LineParsers {
  import opened Text

  // ------------------------------------------------------------------ cutting lines

  /** The finished lines of a text and the unfinished one after the last newline. */
  datatype Cut = Cut(lines: seq<string>, rest: string)

  function IndexOf(s: string): (i: nat)
    ensures i <= |s| && (i < |s| ==> s[i] == '\n') && '\n' !in s[..i]
    ensures i < |s| <==> '\n' in s
  {
    if s == [] || s[0] == '\n' then 0
    else
      var i := IndexOf(s[1..]);
      assert s[..i + 1] == [s[0]] + s[1..][..i] && s == [s[0]] + s[1..];
      i + 1
  }

  function CutLines(s: string): (c: Cut)
    ensures '\n' !in c.rest && |c.rest| <= |s|
  {
    var nl := IndexOf(s);
    if nl == |s| then
      assert s[..nl] == s;
      Cut([], s)
    else
      var more := CutLines(s[nl + 1..]);
      Cut([s[..nl]] + more.lines, more.rest)
  }

  lemma {:induction false} IndexOfIs(s: string, i: nat)
    requires i < |s| && s[i] == '\n' && '\n' !in s[..i]
    ensures IndexOf(s) == i
  {
    if i > 0 {
      assert s[..i] == [s[0]] + s[1..][..i - 1];
      IndexOfIs(s[1..], i - 1);
    }
  }

  /** The first line of a text and the cut of what follows it. */
  lemma CutHead(s: string, i: nat)
    requires i < |s| && s[i] == '\n' && '\n' !in s[..i]
    ensures CutLines(s) == Cut([s[..i]] + CutLines(s[i + 1..]).lines, CutLines(s[i + 1..]).rest)
  {
    hide IndexOf;
    IndexOfIs(s, i);
    var more := CutLines(s[i + 1..]);
    assert CutLines(s).lines == [s[..i]] + more.lines;
  }

  lemma CutNothing(s: string)
    requires '\n' !in s
    ensures CutLines(s) == Cut([], s)
  {}

  /** Cutting a longer text goes on from the unfinished line of its front. */
  lemma {:induction false} CutConcat(x: string, y: string)
    ensures var front, back := CutLines(x), CutLines(CutLines(x).rest + y);
            CutLines(x + y) == Cut(front.lines + back.lines, back.rest)
    decreases |x|
  {
    hide CutLines;
    var nl := IndexOf(x);
    if nl == |x| {
      CutNothing(x);
    } else {
      var tail := x[nl + 1..];
      assert (x + y)[..nl] == x[..nl] && (x + y)[nl + 1..] == tail + y;
      CutHead(x, nl);
      CutHead(x + y, nl);
      CutConcat(tail, y);
      var back := CutLines(CutLines(tail).rest + y);
      assert [x[..nl]] + (CutLines(tail).lines + back.lines) == [x[..nl]] + CutLines(tail).lines + back.lines;
    }
  }

  /** The lines and the rest, joined by newlines, are the text again, and none holds a newline. */
  lemma {:induction false} CutJoins(s: string)
    ensures Join(CutLines(s).lines + [CutLines(s).rest], '\n') == s
    ensures forall line :: line in CutLines(s).lines + [CutLines(s).rest] ==> '\n' !in line
    decreases |s|
  {
    hide CutLines;
    var nl := IndexOf(s);
    if nl < |s| {
      var more := CutLines(s[nl + 1..]);
      CutHead(s, nl);
      CutJoins(s[nl + 1..]);
      var tail := more.lines + [more.rest];
      assert CutLines(s).lines + [CutLines(s).rest] == [s[..nl]] + tail;
      JoinMore(s[..nl], tail);
      assert s == s[..nl] + ("\n" + s[nl + 1..]);
    } else {
      CutNothing(s);
      assert [] + [s] == [s];
    }
  }

  lemma JoinMore(line: string, tail: seq<string>)
    requires tail != []
    ensures Join([line] + tail, '\n') == line + ("\n" + Join(tail, '\n'))
  {
    assert ([line] + tail)[1..] == tail;
  }

  function Flat(chunks: seq<string>): string {
    if chunks == [] then [] else chunks[0] + Flat(chunks[1..])
  }

  // ------------------------------------------------------------ server-sent events

  /** `split('\n')`. */
  function Split(s: string): (parts: seq<string>)
    ensures parts != []
  {
    CutLines(s).lines + [CutLines(s).rest]
  }

  predicate StartsWith(s: string, prefix: string) { prefix <= s }

  /** The event a line carries, as a list of none or one. */
  function EventOf(raw: string): seq<string> {
    var line := if raw != [] && raw[|raw| - 1] == '\r' then raw[..|raw| - 1] else raw;
    if !StartsWith(line, "data:") then []
    else
      var value := line[5..];
      [if StartsWith(value, " ") then value[1..] else value]
  }

  /** Which lines are events, and what is cut off them: a last `\r`, `data:` and one blank after it. */
  lemma EventSpelled(raw: string, line: string, event: string)
    requires raw == line + "\r" || (raw == line && (line == "" || line[|line| - 1] != '\r'))
    ensures EventOf(raw) == [event] <==> line == "data: " + event
                                           || (line == "data:" + event && (event == "" || event[0] != ' '))
    ensures EventOf(raw) == [] <==> |line| < 5 || line[..5] != "data:"
  {
    if raw != line { assert raw[..|raw| - 1] == line; }
    if |line| >= 5 {
      assert line == line[..5] + line[5..];
      if |line| > 5 { assert line[5..] == [line[5]] + line[6..] && "data: " == "data:" + " "; }
      assert "data: " + event == "data:" + (" " + event);
      assert line[..5] == "data:" ==> (line == "data:" + event <==> line[5..] == event);
    }
  }

  function EventsOf(lines: seq<string>): seq<string> {
    if lines == [] then [] else EventsOf(lines[..|lines| - 1]) + EventOf(lines[|lines| - 1])
  }

  /** `sseDataLines`: pop the unfinished line, then look at the finished ones. */
  method SseDataLines(buffer: string, chunk: string) returns (rest: string, events: seq<string>)
    ensures rest == CutLines(buffer + chunk).rest && events == EventsOf(CutLines(buffer + chunk).lines)
  {
    hide CutLines, IndexOf;
    var lines := Split(buffer + chunk);
    rest := lines[|lines| - 1];
    lines := lines[..|lines| - 1];
    events := [];
    for i := 0 to |lines|
      invariant events == EventsOf(lines[..i])
    {
      assert lines[..i + 1][..i] == lines[..i];
      var raw := lines[i];
      var line := if raw != [] && raw[|raw| - 1] == '\r' then raw[..|raw| - 1] else raw;
      if !StartsWith(line, "data:") { continue; }
      var value := line[5..];
      events := events + [if StartsWith(value, " ") then value[1..] else value];
    }
    assert lines[..|lines|] == lines;
  }

  /** What the read loop of `pump` has written after all chunks, and what it still holds. */
  function Pumped(buffer: string, chunks: seq<string>): Cut
    decreases |chunks|
  {
    if chunks == [] then Cut([], buffer)
    else
      var c := CutLines(buffer + chunks[0]);
      var later := Pumped(c.rest, chunks[1..]);
      Cut(EventsOf(c.lines) + later.lines, later.rest)
  }

  lemma {:induction false} EventsConcat(a: seq<string>, b: seq<string>)
    ensures EventsOf(a + b) == EventsOf(a) + EventsOf(b)
  {
    if b == [] {
      assert a + b == a;
    } else {
      assert (a + b)[..|a + b| - 1] == a + b[..|b| - 1];
      EventsConcat(a, b[..|b| - 1]);
    }
  }

  /** However a stream is cut into chunks, its events and its unfinished line are those of the whole. */
  lemma {:induction false} EventsIgnoreChunking(buffer: string, chunks: seq<string>)
    requires '\n' !in buffer
    ensures var whole := CutLines(buffer + Flat(chunks));
        Pumped(buffer, chunks) == Cut(EventsOf(whole.lines), whole.rest)
    decreases |chunks|
  {
    hide CutLines, EventOf;
    if chunks == [] {
      assert buffer + Flat(chunks) == buffer;
      CutNothing(buffer);
    } else {
      var front := buffer + chunks[0];
      var c := CutLines(front);
      EventsIgnoreChunking(c.rest, chunks[1..]);
      CutConcat(front, Flat(chunks[1..]));
      assert buffer + Flat(chunks) == front + Flat(chunks[1..]);
      EventsConcat(c.lines, CutLines(c.rest + Flat(chunks[1..])).lines);
    }
  }

  // ------------------------------------------------------------------ train lines

  const LINE_MAX := 4194304

  predicate Blank(s: string) { forall c :: c in s ==> Space(c) }

  /** The line handed on, as a list of none or one. */
  function Kept(line: string): seq<string> { if Trim(line) == [] then [] else [Trim(line)] }

  /** A line between blanks is handed on without them. */
  lemma KeptBetweenBlanks(before: string, line: string, after: string)
    requires Blank(before) && Blank(after)
    requires line != [] ==> !Space(line[0]) && !Space(line[|line| - 1])
    ensures Kept(before + line + after) == if line == "" then [] else [line]
  {
    assert before + line + after == before + (line + after);
    TrimStartConcat(before, line + after);
    if line == [] {
      assert line + after == after;
      TrimBlank(after);
    } else {
      TrimEndConcat(line, after);
    }
  }

  function KeptOf(lines: seq<string>): seq<string> {
    if lines == [] then [] else Kept(lines[0]) + KeptOf(lines[1..])
  }

  predicate Dropped(buf: string) { |buf| > LINE_MAX && '\n' !in buf }

  /** The lines one call hands on and what it keeps. */
  function Drained(buf: string): Cut {
    if Dropped(buf) then Cut([], [])
    else Cut(KeptOf(CutLines(buf).lines), CutLines(buf).rest)
  }

  lemma {:induction false} KeptConcat(a: seq<string>, b: seq<string>)
    ensures KeptOf(a + b) == KeptOf(a) + KeptOf(b)
  {
    if a == [] {
      assert a + b == b;
    } else {
      assert (a + b)[1..] == a[1..] + b;
      KeptConcat(a[1..], b);
    }
  }

  lemma KeptHead(line: string, more: seq<string>)
    ensures KeptOf([line] + more) == Kept(line) + KeptOf(more)
  {
    assert ([line] + more)[1..] == more;
  }

  /** `drainLines`, consuming its buffer; `handed` lists the calls of `onLine`. */
  method DrainLines(input: string) returns (rest: string, handed: seq<string>)
    ensures Cut(handed, rest) == Drained(input)
    ensures |input| > 4194304 && '\n' !in input ==> handed == [] && rest == []
    ensures |input| <= 4194304 || '\n' in input ==>
              handed == KeptOf(CutLines(input).lines) && rest == CutLines(input).rest
  {
    hide CutLines, Trim, IndexOf, KeptOf;
    var buf := input;
    handed := [];
    if |buf| > LINE_MAX && '\n' !in buf {
      return [], [];
    }
    var nl := IndexOf(buf);
    while nl != |buf|
      invariant nl == IndexOf(buf)
      invariant CutLines(input).rest == CutLines(buf).rest
      invariant KeptOf(CutLines(input).lines) == handed + KeptOf(CutLines(buf).lines)
      decreases |buf|
    {
      var line := Trim(buf[..nl]);
      CutHead(buf, nl);
      KeptHead(buf[..nl], CutLines(buf[nl + 1..]).lines);
      buf := buf[nl + 1..];
      nl := IndexOf(buf);
      if line == [] { continue; }
      handed := handed + [line];
    }
    rest := buf;
    CutNothing(buf);
    KeptNone();
  }

  lemma KeptNone()
    ensures KeptOf([]) == []
  {}

  /** Two calls in a row: the second buffer is what the first kept and the next chunk. */
  function DrainedTwice(buf: string, chunk: string): Cut {
    var first := Drained(buf);
    var second := Drained(first.rest + chunk);
    Cut(first.lines + second.lines, second.rest)
  }

  /**
   When feeding a chunk at a time does what feeding everything at once does: the unfinished
   line never passes its limit, or what was dropped could not be seen to be missing.
   */
  predicate ChunkingHarmless(buf: string, chunk: string) {
    if '\n' in buf then !Dropped(CutLines(buf).rest + chunk)
    else |buf| <= LINE_MAX || if '\n' in chunk then Blank(buf) else chunk == [] || |chunk| > LINE_MAX
  }

  lemma {:induction false} TrimStartConcat(a: string, b: string)
    ensures TrimStart(a + b) == if Blank(a) then TrimStart(b) else TrimStart(a) + b
    ensures !Blank(a) ==> TrimStart(a) != []
  {
    if a == [] {
      assert a + b == b;
    } else {
      assert a == [a[0]] + a[1..] && (a + b)[1..] == a[1..] + b;
      TrimStartConcat(a[1..], b);
    }
  }

  lemma {:induction false} TrimEndConcat(a: string, b: string)
    ensures TrimEnd(a + b) == if Blank(b) then TrimEnd(a) else a + TrimEnd(b)
  {
    if b == [] {
      assert a + b == a;
    } else {
      var front := b[..|b| - 1];
      assert b == front + [b[|b| - 1]] && (a + b)[..|a + b| - 1] == a + front;
      TrimEndConcat(a, front);
    }
  }

  lemma {:induction false} TrimEndShorter(s: string)
    ensures |TrimEnd(s)| <= |s| && (s != [] && !Space(s[0]) ==> TrimEnd(s) != [])
  {
    if s != [] && Space(s[|s| - 1]) { TrimEndShorter(s[..|s| - 1]); }
  }

  lemma {:induction false} TrimBlank(s: string)
    requires Blank(s)
    ensures TrimStart(s) == []
  {
    if s != [] { TrimBlank(s[1..]); }
  }

  lemma {:induction false} TrimStartSuffix(s: string)
    ensures |TrimEnd(TrimStart(s))| <= |TrimEnd(s)|
  {
    if s != [] && Space(s[0]) {
      TrimStartSuffix(s[1..]);
      assert s == [s[0]] + s[1..];
      TrimEndConcat([s[0]], s[1..]);
      TrimEndShorter(s);
      if Blank(s[1..]) { TrimBlank(s[1..]); }
    }
  }

  /** What is in front of a line shows in its trimmed text exactly when it is not blank. */
  lemma TrimShowsFront(front: string, line: string)
    ensures Blank(front) ==> Trim(front + line) == Trim(line)
    ensures !Blank(front) ==> |Trim(front + line)| > |Trim(line)|
  {
    TrimStartConcat(front, line);
    if !Blank(front) {
      var x := TrimStart(front);
      TrimEndConcat(x, line);
      TrimStartSuffix(line);
      TrimEndShorter(x);
      if Blank(line) { TrimBlank(line); }
    }
  }

  lemma IndexAfter(s: string, rest: string)
    requires '\n' !in s && '\n' in rest
    ensures var nl := IndexOf(rest);
            && nl < |rest| && (s + rest)[..|s| + nl] == s + rest[..nl] && (s + rest)[|s| + nl + 1..] == rest[nl + 1..]
            && (s + rest)[|s| + nl] == '\n' && '\n' !in (s + rest)[..|s| + nl]
  {
    hide IndexOf;
  }

  lemma CutAtFirst(rest: string)
    requires '\n' in rest
    ensures var nl, c := IndexOf(rest), CutLines(rest);
            && nl < |rest| && c.lines != [] && c.lines[0] == rest[..nl]
            && c.lines[1..] == CutLines(rest[nl + 1..]).lines && c.rest == CutLines(rest[nl + 1..]).rest
  {
    hide CutLines, IndexOf;
    CutHead(rest, IndexOf(rest));
    var more := CutLines(rest[IndexOf(rest) + 1..]).lines;
    assert ([rest[..IndexOf(rest)]] + more)[1..] == more;
  }

  lemma CutBetween(s: string, i: nat, line: string, after: string)
    requires i < |s| && s[i] == '\n' && '\n' !in line && line == s[..i] && after == s[i + 1..]
    ensures CutLines(s) == Cut([line] + CutLines(after).lines, CutLines(after).rest)
  {
    CutHead(s, i);
  }

  lemma CutSpliced(s: string, rest: string)
    requires '\n' !in s && '\n' in rest
    ensures var nl := IndexOf(rest);
            CutLines(s + rest) == Cut([s + rest[..nl]] + CutLines(rest[nl + 1..]).lines, CutLines(rest[nl + 1..]).rest)
  {
    hide CutLines, IndexOf;
    var nl := IndexOf(rest);
    IndexAfter(s, rest);
    CutBetween(s + rest, |s| + nl, s + rest[..nl], rest[nl + 1..]);
  }

  lemma CutFirst(s: string, rest: string)
    requires '\n' !in s
    ensures '\n' in rest ==>
              && CutLines(rest).lines != [] && CutLines(rest).lines[0] == rest[..IndexOf(rest)]
              && CutLines(s + rest) == Cut([s + rest[..IndexOf(rest)]] + CutLines(rest).lines[1..], CutLines(rest).rest)
    ensures '\n' !in rest ==> CutLines(s + rest) == Cut([], s + rest)
  {
    hide CutLines, IndexOf;
    if '\n' in rest {
      CutAtFirst(rest);
      CutSpliced(s, rest);
    } else {
      CutNothing(s + rest);
    }
  }

  lemma KeptFirst(lines: seq<string>)
    requires lines != []
    ensures KeptOf(lines) == Kept(lines[0]) + KeptOf(lines[1..])
  {}

  /** A dropped line is missed exactly when its text was not blank. */
  lemma DroppedIsMissed(buf: string, chunk: string)
    requires Dropped(buf) && '\n' in chunk
    ensures Drained(chunk) == Drained(buf + chunk) <==> Blank(buf)
  {
    CutFirst(buf, chunk);
    var h := chunk[..IndexOf(chunk)];
    var more := CutLines(chunk).lines[1..];
    KeptFirst(CutLines(chunk).lines);
    KeptFirst(CutLines(buf + chunk).lines);
    assert CutLines(buf + chunk).lines[1..] == more;
    TrimShowsFront(buf, h);
    hide Trim, CutLines, KeptOf;
    if !Blank(buf) {
      assert Drained(buf + chunk).lines == Kept(buf + h) + KeptOf(more);
      assert Drained(chunk).lines == Kept(h) + KeptOf(more);
      assert Kept(buf + h) == [Trim(buf + h)];
      assert (Kept(buf + h) + KeptOf(more))[0] == Trim(buf + h);
      assert Trim(h) != [] ==> (Kept(h) + KeptOf(more))[0] == Trim(h);
    }
  }

  /** The exact chunking law of `drainLines`. */
  lemma DrainingIgnoresChunkingExactlyWhen(buf: string, chunk: string)
    ensures DrainedTwice(buf, chunk) == Drained(buf + chunk) <==> ChunkingHarmless(buf, chunk)
  {
    if '\n' in buf {
      CutConcat(buf, chunk);
      KeptConcat(CutLines(buf).lines, CutLines(CutLines(buf).rest + chunk).lines);
      CutFirst(CutLines(buf).rest, chunk);
      assert '\n' in buf + chunk;
    } else {
      CutFirst(buf, []);
      assert buf + [] == buf;
      if |buf| > LINE_MAX {
        assert [] + chunk == chunk;
        if '\n' in chunk {
          DroppedIsMissed(buf, chunk);
          assert Drained(buf).rest + chunk == chunk;
        } else {
          assert Dropped(buf + chunk);
          CutFirst(chunk, []);
          assert chunk + [] == chunk && Drained(buf).rest + chunk == chunk;
        }
      } else {
        assert Drained(buf) == Cut([], buf);
        assert [] + Drained(buf + chunk).lines == Drained(buf + chunk).lines;
      }
    }
  }

  /** Feeding chunks one by one, from what was kept before. */
  function Fed(rest: string, chunks: seq<string>): Cut
    decreases |chunks|
  {
    if chunks == [] then Cut([], rest)
    else
      var c := Drained(rest + chunks[0]);
      var later := Fed(c.rest, chunks[1..]);
      Cut(c.lines + later.lines, later.rest)
  }

  /** After every chunk the unfinished line is within its limit. */
  predicate WithinLimit(rest: string, chunks: seq<string>)
    decreases |chunks|
  {
    |rest| <= LINE_MAX && (chunks == [] || WithinLimit(CutLines(rest + chunks[0]).rest, chunks[1..]))
  }

  lemma WithinIsNotDropped(buf: string)
    requires |CutLines(buf).rest| <= LINE_MAX
    ensures !Dropped(buf)
  {
    if '\n' !in buf { CutNothing(buf); }
  }

  /** While no unfinished line passes its limit, any chunking hands on the lines of the whole. */
  lemma {:induction false} LinesIgnoreChunking(rest: string, chunks: seq<string>)
    requires '\n' !in rest && WithinLimit(rest, chunks)
    ensures Fed(rest, chunks) == Cut(KeptOf(CutLines(rest + Flat(chunks)).lines), CutLines(rest + Flat(chunks)).rest)
    decreases |chunks|
  {
    hide CutLines, KeptOf, Dropped;
    if chunks == [] {
      assert rest + Flat(chunks) == rest;
      CutNothing(rest);
      KeptNone();
    } else {
      var front, more := rest + chunks[0], chunks[1..];
      var c := CutLines(front);
      WithinIsNotDropped(front);
      LinesIgnoreChunking(c.rest, more);
      assert rest + Flat(chunks) == front + Flat(more);
      CutConcat(front, Flat(more));
      KeptConcat(c.lines, CutLines(c.rest + Flat(more)).lines);
    }
  }

  /** For every input, what is kept has no newline and is no longer than the limit or the last chunk. */
  lemma RemainderIsBounded(rest: string, chunk: string)
    requires '\n' !in rest
    ensures '\n' !in Drained(rest + chunk).rest
    ensures |Drained(rest + chunk).rest| <= if |chunk| > LINE_MAX then |chunk| else LINE_MAX
  {
    CutFirst(rest, chunk);
  }
}
